/** The body of `run` after validation, shared word for word by the current
    and the legacy action: a do-while loop of attempts, each of which opens
    a connection, writes the response to the file and publishes the file
    path and the response headers; failures are retried, a malformed URL or
    a protocol error aborts at once. The network is an oracle that says how
    each attempt's dealings with java.net end. */
module Retry {
  import opened JavaLang
  import opened PluginConfig
  import opened Transfer

  /** How an exception thrown inside an attempt is caught. */
  datatype Thrown =
      /** A MalformedURLException or a ProtocolException: rethrown wrapped. */
    | Fatal(cause: nat)
      /** Any other exception: recorded, and the loop goes on. */
    | Transient(id: nat)

  /** The outcome of getInputStream(), the call that makes the request.
      When it responds, `closing` is what closing the input stream, the
      file's output stream and the file system threw at the end of the
      try-with-resources block, after the arguments were published (None
      when all three closed cleanly). */
  datatype Response =
    | Responded(stream: Option<seq<byte>>, headerFields: HeaderFields, closing: Option<Thrown>)
    | ResponseThrew(error: Thrown)

  /** One attempt's dealings with java.net, decided by the environment. */
  datatype Connection =
      /** new URL(...) or openConnection() threw: no connection to close. */
    | NotOpened(error: Thrown)
      /** The connection was opened, then configuring it or sending the
          request body threw, before the file was touched. */
    | SetupThrew(error: Thrown)
      /** The connection was opened and configured. */
    | Opened(response: Response)

  /** The environment: the connection of each attempt, numbered from 0, and
      the reader that decodes a byte stream in a named charset (None when
      the charset is not supported). */
  datatype Environment = Environment(
    connections: nat -> Connection,
    decode: (string, seq<byte>) -> Option<seq<char>>)

  /** How an attempt ends. */
  datatype Kind =
    | Success
    | Abort(cause: nat)
    | Failure(error: Exception)

  /** What an attempt does: how it ends, whether it opened a connection
      (and so disconnects it), whether it created the file, with the bytes
      it then wrote, and the response headers when it published the file
      path and the headers. */
  datatype Effect = Effect(kind: Kind, connected: bool, created: bool, written: seq<byte>,
                           published: Option<HeaderFields>)

  /** What the response-writing code puts in the file, or throws. */
  datatype Written = Wrote(bytes: seq<byte>) | WriteThrew(error: Exception)

  /** How a loop run ends. */
  datatype Outcome = Completed | Threw(error: Exception)

  /** The state the loop changes: attempts made, connections closed, the
      file's contents and the context's arguments. */
  datatype State = State(attempts: nat, disconnects: nat, file: seq<byte>, arguments: map<Option<string>, Argument>)

  datatype Run = Run(outcome: Outcome, state: State)

  function KindOf(t: Thrown): Kind
  {
    match t
    case Fatal(cause) => Abort(cause)
    case Transient(id) => Failure(AttemptError(id))
  }

  /** The bytes written for a response stream: nothing for a null stream;
      the stream itself in Binary format; its text re-encoded in Text format;
      nothing for any other format. A null format or charset is dereferenced
      and throws. */
  function Output(c: Config, env: Environment, stream: Option<seq<byte>>): Written
  {
    if stream.None? then Wrote([])
    else if c.outputFormat.None? then WriteThrew(NullPointer)
    else if EqualsIgnoreCase(c.outputFormat.value, "Binary") then Wrote(stream.value)
    else if EqualsIgnoreCase(c.outputFormat.value, "Text") then
      if c.charset.None? then WriteThrew(NullPointer)
      else match env.decode(c.charset.value, stream.value)
        case None => WriteThrew(UnsupportedCharset(c.charset.value))
        case Some(text) => Wrote(Utf8(text))
    else Wrote([])
  }

  /** How an attempt that got a response ends: as the write threw, or as
      closing the resources threw once the response was written, or in
      success. */
  function ResponseKind(w: Written, closing: Option<Thrown>): Kind
  {
    if w.WriteThrew? then Failure(w.error)
    else if closing.Some? then KindOf(closing.value)
    else Success
  }

  /** One attempt, from `new URL` to `break` or the catch clauses. */
  function AttemptEffect(c: Config, env: Environment, conn: Connection): Effect
  {
    match conn
    case NotOpened(t) => Effect(KindOf(t), false, false, [], None)
    case SetupThrew(t) => Effect(KindOf(t), true, false, [], None)
    case Opened(response) =>
      if c.hdfsFilePath.None? then Effect(Failure(NullPathArgument), true, false, [], None)
      else
        match response
        case ResponseThrew(t) => Effect(KindOf(t), true, true, [], None)
        case Responded(stream, fields, closing) =>
          var w := Output(c, env, stream);
          Effect(ResponseKind(w, closing), true, true, if w.Wrote? then w.bytes else [],
                 if w.Wrote? then Some(fields) else None)
  }

  /** What a successful attempt publishes: the file path under the
      output-path name, then the flattened headers under the
      response-headers name. */
  function Published(c: Config, fields: HeaderFields, arguments: map<Option<string>, Argument>): map<Option<string>, Argument>
    requires c.hdfsFilePath.Some?
  {
    arguments[c.outputPath := FilePath(c.hdfsFilePath.value)][c.responseHeaders := Headers(Flattened(fields))]
  }

  /** The file path is published under the output-path name, and the
      flattened headers under the response-headers name; the headers
      overwrite the path when both names are the same. */
  lemma PublishedNames(c: Config, fields: HeaderFields, arguments: map<Option<string>, Argument>)
    requires c.hdfsFilePath.Some?
    ensures Published(c, fields, arguments)[c.responseHeaders] == Headers(Flattened(fields))
    ensures c.outputPath != c.responseHeaders ==>
      Published(c, fields, arguments)[c.outputPath] == FilePath(c.hdfsFilePath.value)
    ensures forall name :: name != c.outputPath && name != c.responseHeaders ==>
      (name in Published(c, fields, arguments) <==> name in arguments)
  {
  }

  /** Publishing again overrides both names: only the last headers count. */
  lemma PublishedTwice(c: Config, first: HeaderFields, second: HeaderFields, arguments: map<Option<string>, Argument>)
    requires c.hdfsFilePath.Some?
    ensures Published(c, second, Published(c, first, arguments)) == Published(c, second, arguments)
  {
    OverwriteBoth(arguments, c.outputPath, c.responseHeaders, FilePath(c.hdfsFilePath.value),
                  Headers(Flattened(first)), Headers(Flattened(second)));
  }

  /** Setting the same two names again replaces what the first two settings
      left there. */
  lemma OverwriteBoth<K, V>(m: map<K, V>, p: K, h: K, x: V, y1: V, y2: V)
    ensures m[p := x][h := y1][p := x][h := y2] == m[p := x][h := y2]
  {
    var once, twice := m[p := x][h := y2], m[p := x][h := y1][p := x][h := y2];
    assert twice.Keys == once.Keys;
  }

  /** The arguments after an attempt with effect `e`. */
  function PublishedArgs(c: Config, e: Effect, arguments: map<Option<string>, Argument>): map<Option<string>, Argument>
  {
    if e.published.Some? && c.hdfsFilePath.Some? then Published(c, e.published.value, arguments) else arguments
  }

  /** The state after an attempt with effect `e`. */
  function After(c: Config, e: Effect, s: State): State
  {
    State(
      s.attempts + 1,
      s.disconnects + (if e.connected then 1 else 0),
      if e.created then e.written else s.file,
      PublishedArgs(c, e, s.arguments))
  }

  /** The attempt with number `k` and what it does. */
  function EffectAt(c: Config, env: Environment, k: nat): Effect
  {
    AttemptEffect(c, env, env.connections(k))
  }

  /** The arguments after the attempts numbered `from` up to `to`, each
      publishing or not. */
  function ArgumentsAfter(c: Config, env: Environment, from: nat, to: nat,
                          arguments: map<Option<string>, Argument>): map<Option<string>, Argument>
    decreases to - from
  {
    if to <= from then arguments
    else ArgumentsAfter(c, env, from + 1, to, PublishedArgs(c, EffectAt(c, env, from), arguments))
  }

  /** The first of the attempts comes first. */
  lemma ArgumentsAfterStep(c: Config, env: Environment, from: nat, to: nat, arguments: map<Option<string>, Argument>)
    requires from < to
    ensures ArgumentsAfter(c, env, from, to, arguments) ==
      ArgumentsAfter(c, env, from + 1, to, PublishedArgs(c, EffectAt(c, env, from), arguments))
  {
  }

  /** Attempts that publish nothing leave the arguments as they were. */
  lemma {:induction false} NothingPublished(c: Config, env: Environment, from: nat, to: nat,
                                            arguments: map<Option<string>, Argument>)
    requires forall j :: from <= j < to ==> EffectAt(c, env, j).published.None?
    ensures ArgumentsAfter(c, env, from, to, arguments) == arguments
    decreases (to as int) - from
  {
    if from < to {
      NothingPublished(c, env, from + 1, to, arguments);
    }
  }

  /** When the last of the attempts published, the arguments are what it
      published over the arguments before them all, whatever the attempts
      in between published. */
  lemma {:induction false} LastPublishWins(c: Config, env: Environment, from: nat, to: nat,
                                           arguments: map<Option<string>, Argument>)
    requires from < to && c.hdfsFilePath.Some? && EffectAt(c, env, to - 1).published.Some?
    ensures ArgumentsAfter(c, env, from, to, arguments) ==
      Published(c, EffectAt(c, env, to - 1).published.value, arguments)
    decreases (to as int) - from
  {
    var e := EffectAt(c, env, from);
    var next := PublishedArgs(c, e, arguments);
    var last := EffectAt(c, env, to - 1).published.value;
    assert ArgumentsAfter(c, env, from, to, arguments) == ArgumentsAfter(c, env, from + 1, to, next);
    if from + 1 == to {
      assert ArgumentsAfter(c, env, from + 1, to, next) == next;
    } else {
      LastPublishWins(c, env, from + 1, to, next);
      if e.published.Some? {
        PublishedTwice(c, e.published.value, last, arguments);
      }
    }
  }

  /** The number of attempts the loop can make: the retry count, but at
      least one since the test comes after the body, and just one when the
      retry count is null (the test itself throws). */
  function Bound(c: Config): nat
  {
    if c.numRetries.Some? && c.numRetries.value > 1 then c.numRetries.value else 1
  }

  /** The loop from the state before attempt number `s.attempts`, with the
      last recorded exception. */
  function LoopFrom(c: Config, env: Environment, exception: Option<Exception>, s: State): Run
    decreases (if c.numRetries.Some? then c.numRetries.value else 0) - s.attempts
  {
    var e := EffectAt(c, env, s.attempts);
    var next := After(c, e, s);
    match e.kind
    case Abort(cause) => Run(Threw(IllegalState(cause)), next)
    case Success => Run(if exception.None? then Completed else Threw(exception.value), next)
    case Failure(error) =>
      if c.numRetries.None? then Run(Threw(NullPointer), next)
      else if next.attempts < c.numRetries.value then LoopFrom(c, env, Some(error), next)
      else Run(Threw(error), next)
  }

  /** The whole loop, from the file and arguments it starts with. */
  function RunLoop(c: Config, env: Environment, file: seq<byte>, arguments: map<Option<string>, Argument>): Run
  {
    LoopFrom(c, env, None, State(0, 0, file, arguments))
  }

  /** One turn of the loop, case by case. */
  lemma LoopStep(c: Config, env: Environment, exception: Option<Exception>, s: State)
    ensures var e := EffectAt(c, env, s.attempts);
      var next := After(c, e, s);
      var r := LoopFrom(c, env, exception, s);
      (e.kind.Abort? ==> r == Run(Threw(IllegalState(e.kind.cause)), next)) &&
      (e.kind.Success? ==> r == Run(if exception.None? then Completed else Threw(exception.value), next)) &&
      (e.kind.Failure? && c.numRetries.None? ==> r == Run(Threw(NullPointer), next)) &&
      (e.kind.Failure? && c.numRetries.Some? && next.attempts < c.numRetries.value ==>
        r == LoopFrom(c, env, Some(e.kind.error), next)) &&
      (e.kind.Failure? && c.numRetries.Some? && next.attempts >= c.numRetries.value ==>
        r == Run(Threw(e.kind.error), next))
  {
  }

  // ---------------------------------------------------------------------
  // Properties of the loop
  // ---------------------------------------------------------------------

  /** A successful attempt opened a connection and created the file, so a
      file path was configured, and published the response headers. */
  lemma SuccessfulAttempt(c: Config, env: Environment, conn: Connection)
    requires AttemptEffect(c, env, conn).kind.Success?
    ensures var e := AttemptEffect(c, env, conn);
      e.connected && e.created && c.hdfsFilePath.Some? && conn.Opened? && conn.response.Responded? &&
      e.published == Some(conn.response.headerFields) && conn.response.closing.None? &&
      Output(c, env, conn.response.stream) == Wrote(e.written)
  {
  }

  /** An attempt publishes exactly when it got a response and wrote it to
      the file; it then succeeds unless closing the resources threw, in
      which case it ends as that exception does, the file written and the
      arguments published all the same. */
  lemma PublishingAttempt(c: Config, env: Environment, conn: Connection)
    ensures var e := AttemptEffect(c, env, conn);
      e.published.Some? <==>
        c.hdfsFilePath.Some? && conn.Opened? && conn.response.Responded? &&
        Output(c, env, conn.response.stream).Wrote?
    ensures var e := AttemptEffect(c, env, conn);
      e.published.Some? ==>
        e.published == Some(conn.response.headerFields) && e.created &&
        Output(c, env, conn.response.stream) == Wrote(e.written) &&
        e.kind == (if conn.response.closing.None? then Success else KindOf(conn.response.closing.value))
    ensures AttemptEffect(c, env, conn).kind.Success? ==> AttemptEffect(c, env, conn).published.Some?
  {
  }

  /** The attempts numbered `from` up to `to` that opened a connection. */
  function OpenedCount(c: Config, env: Environment, from: nat, to: nat): nat
    decreases to - from
  {
    if to <= from then 0
    else (if EffectAt(c, env, from).connected then 1 else 0) + OpenedCount(c, env, from + 1, to)
  }

  lemma {:induction false} LoopFromBounded(c: Config, env: Environment, exception: Option<Exception>, s: State)
    requires s.attempts < Bound(c)
    ensures var r := LoopFrom(c, env, exception, s);
      s.attempts < r.state.attempts <= Bound(c) &&
      r.state.disconnects == s.disconnects + OpenedCount(c, env, s.attempts, r.state.attempts)
    decreases Bound(c) - s.attempts
  {
    LoopStep(c, env, exception, s);
    var e := EffectAt(c, env, s.attempts);
    var next := After(c, e, s);
    var r := LoopFrom(c, env, exception, s);
    var closing := if e.connected then 1 else 0;
    assert next.attempts == s.attempts + 1 && next.disconnects == s.disconnects + closing;
    if e.kind.Failure? && c.numRetries.Some? && next.attempts < c.numRetries.value {
      LoopFromBounded(c, env, Some(e.kind.error), next);
      assert r == LoopFrom(c, env, Some(e.kind.error), next);
      assert OpenedCount(c, env, s.attempts, r.state.attempts) ==
        closing + OpenedCount(c, env, next.attempts, r.state.attempts);
    } else {
      assert r.state == next;
      assert OpenedCount(c, env, s.attempts, next.attempts) == closing + OpenedCount(c, env, next.attempts, next.attempts);
    }
  }

  /** The loop makes at least one attempt and at most Bound(c), and closes
      exactly the connections its attempts opened, each once. */
  lemma AttemptsAndDisconnects(c: Config, env: Environment, file: seq<byte>, arguments: map<Option<string>, Argument>)
    ensures var r := RunLoop(c, env, file, arguments);
      1 <= r.state.attempts <= Bound(c) &&
      r.state.disconnects == OpenedCount(c, env, 0, r.state.attempts)
  {
    LoopFromBounded(c, env, None, State(0, 0, file, arguments));
  }

  /** Whatever way the loop ends, the arguments are what its attempts
      published, one after the other. */
  lemma {:induction false} LoopArguments(c: Config, env: Environment, exception: Option<Exception>, s: State)
    ensures var r := LoopFrom(c, env, exception, s);
      s.attempts < r.state.attempts &&
      r.state.arguments == ArgumentsAfter(c, env, s.attempts, r.state.attempts, s.arguments)
    decreases (if c.numRetries.Some? then c.numRetries.value else 0) - s.attempts
  {
    LoopStep(c, env, exception, s);
    var e := EffectAt(c, env, s.attempts);
    var next := After(c, e, s);
    var r := LoopFrom(c, env, exception, s);
    assert next.arguments == PublishedArgs(c, e, s.arguments);
    if e.kind.Failure? && c.numRetries.Some? && next.attempts < c.numRetries.value {
      LoopArguments(c, env, Some(e.kind.error), next);
      assert r == LoopFrom(c, env, Some(e.kind.error), next);
      ArgumentsAfterStep(c, env, s.attempts, r.state.attempts, s.arguments);
    } else {
      assert r.state == next;
      ArgumentsAfterStep(c, env, s.attempts, next.attempts, s.arguments);
      assert ArgumentsAfter(c, env, next.attempts, next.attempts, next.arguments) == next.arguments;
    }
  }

  lemma {:induction false} StopsAtFirstNonFailure(c: Config, env: Environment, exception: Option<Exception>, s: State, k: nat)
    requires s.attempts <= k < Bound(c)
    requires forall j :: s.attempts <= j < k ==> EffectAt(c, env, j).kind.Failure?
    requires !EffectAt(c, env, k).kind.Failure?
    ensures var r := LoopFrom(c, env, exception, s);
      var e := EffectAt(c, env, k);
      var last := if k == s.attempts then exception else Some(EffectAt(c, env, k - 1).kind.error);
      r.state.attempts == k + 1 &&
      (e.kind.Abort? ==> r.outcome == Threw(IllegalState(e.kind.cause))) &&
      (e.kind.Success? ==>
        c.hdfsFilePath.Some? &&
        r.outcome == (if last.None? then Completed else Threw(last.value)) &&
        r.state.file == e.written)
    decreases k - s.attempts
  {
    LoopStep(c, env, exception, s);
    var e := EffectAt(c, env, s.attempts);
    var next := After(c, e, s);
    if k == s.attempts {
      if e.kind.Success? {
        SuccessfulAttempt(c, env, env.connections(k));
      }
    } else {
      assert e.kind.Failure?;
      assert next.attempts == s.attempts + 1;
      assert next.attempts <= k < c.numRetries.value;
      assert LoopFrom(c, env, exception, s) == LoopFrom(c, env, Some(e.kind.error), next);
      assert k - 1 == s.attempts ==> Some(e.kind.error) == Some(EffectAt(c, env, k - 1).kind.error);
      StopsAtFirstNonFailure(c, env, Some(e.kind.error), next, k);
    }
  }

  lemma {:induction false} AllAttemptsFail(c: Config, env: Environment, exception: Option<Exception>, s: State)
    requires s.attempts < Bound(c)
    requires forall j :: s.attempts <= j < Bound(c) ==> EffectAt(c, env, j).kind.Failure?
    ensures var r := LoopFrom(c, env, exception, s);
      r.state.attempts == Bound(c) &&
      r.outcome == Threw(if c.numRetries.None? then NullPointer else EffectAt(c, env, Bound(c) - 1).kind.error)
    decreases Bound(c) - s.attempts
  {
    LoopStep(c, env, exception, s);
    var e := EffectAt(c, env, s.attempts);
    var next := After(c, e, s);
    var r := LoopFrom(c, env, exception, s);
    if c.numRetries.Some? && next.attempts < c.numRetries.value {
      AllAttemptsFail(c, env, Some(e.kind.error), next);
      assert r == LoopFrom(c, env, Some(e.kind.error), next);
    } else {
      assert s.attempts == Bound(c) - 1;
      assert e == EffectAt(c, env, Bound(c) - 1);
      assert r == Run(Threw(if c.numRetries.None? then NullPointer else e.kind.error), next);
    }
  }

  /** When every attempt fails, the loop makes max(1, numRetries) attempts
      (not numRetries + 1) and throws what the last one threw. With a null
      retry count the loop test itself throws after the first failure. The
      arguments are what the failed attempts published: an attempt that
      wrote the response and then failed in closing its resources has
      published all the same. */
  lemma EveryAttemptFails(c: Config, env: Environment, file: seq<byte>, arguments: map<Option<string>, Argument>)
    requires forall j :: 0 <= j < Bound(c) ==> EffectAt(c, env, j).kind.Failure?
    ensures var r := RunLoop(c, env, file, arguments);
      r.state.attempts == Bound(c) &&
      r.outcome == Threw(if c.numRetries.None? then NullPointer else EffectAt(c, env, Bound(c) - 1).kind.error) &&
      r.state.arguments == ArgumentsAfter(c, env, 0, Bound(c), arguments)
  {
    var s0 := State(0, 0, file, arguments);
    AllAttemptsFail(c, env, None, s0);
    LoopArguments(c, env, None, s0);
  }

  /** A run whose attempts all fail publishes nothing unless one of them
      failed only in closing its resources. */
  lemma FailedRunPublishesNothing(c: Config, env: Environment, file: seq<byte>, arguments: map<Option<string>, Argument>)
    requires forall j :: 0 <= j < Bound(c) ==> EffectAt(c, env, j).kind.Failure?
    requires forall j :: 0 <= j < Bound(c) ==> EffectAt(c, env, j).published.None?
    ensures RunLoop(c, env, file, arguments).state.arguments == arguments
  {
    EveryAttemptFails(c, env, file, arguments);
    NothingPublished(c, env, 0, Bound(c), arguments);
  }

  /** When the last attempt of a failed run wrote the response and failed in
      closing its resources, its file path and headers stay published. */
  lemma FailedRunKeepsLastPublish(c: Config, env: Environment, file: seq<byte>, arguments: map<Option<string>, Argument>)
    requires forall j :: 0 <= j < Bound(c) ==> EffectAt(c, env, j).kind.Failure?
    requires c.hdfsFilePath.Some? && EffectAt(c, env, Bound(c) - 1).published.Some?
    ensures RunLoop(c, env, file, arguments).state.arguments ==
      Published(c, EffectAt(c, env, Bound(c) - 1).published.value, arguments)
  {
    EveryAttemptFails(c, env, file, arguments);
    LastPublishWins(c, env, 0, Bound(c), arguments);
  }

  /** The path a close failure opens: a single attempt that writes the
      response and publishes both arguments, and then fails in closing its
      resources, ends the run with that exception, the file written and the
      arguments published. */
  lemma ClosingFailureAfterPublishing(c: Config, env: Environment, stream: Option<seq<byte>>, fields: HeaderFields,
                                      id: nat, bytes: seq<byte>, file: seq<byte>,
                                      arguments: map<Option<string>, Argument>)
    requires c.hdfsFilePath.Some? && c.numRetries.Some? && c.numRetries.value <= 1
    requires env.connections(0) == Opened(Responded(stream, fields, Some(Transient(id))))
    requires Output(c, env, stream) == Wrote(bytes)
    ensures RunLoop(c, env, file, arguments) ==
      Run(Threw(AttemptError(id)), State(1, 1, bytes, Published(c, fields, arguments)))
  {
    PublishingAttempt(c, env, env.connections(0));
    assert EffectAt(c, env, 0) == Effect(Failure(AttemptError(id)), true, true, bytes, Some(fields));
    LoopStep(c, env, None, State(0, 0, file, arguments));
  }

  /** A retry count of 0 or 1 allows a single attempt; 3 allows three. */
  lemma RetryCountExamples(c: Config, env: Environment, file: seq<byte>, arguments: map<Option<string>, Argument>)
    requires c.numRetries == Some(0) || c.numRetries == Some(3)
    requires forall j :: 0 <= j < 3 ==> EffectAt(c, env, j).kind.Failure?
    ensures RunLoop(c, env, file, arguments).state.attempts == (if c.numRetries == Some(0) then 1 else 3)
  {
    EveryAttemptFails(c, env, file, arguments);
  }

  /** Success at the first attempt: one attempt, nothing thrown, the file
      holds what was written and the arguments are published. */
  lemma FirstAttemptSucceeds(c: Config, env: Environment, file: seq<byte>, arguments: map<Option<string>, Argument>)
    requires EffectAt(c, env, 0).kind.Success?
    ensures var r := RunLoop(c, env, file, arguments);
      var e := EffectAt(c, env, 0);
      c.hdfsFilePath.Some? &&
      r == Run(Completed, State(1, 1, e.written, Published(c, e.published.value, arguments)))
  {
    SuccessfulAttempt(c, env, env.connections(0));
  }

  /** Success after failures: the file is written and the arguments are
      published, and yet the run throws the exception recorded by the
      attempt before, since it is never cleared. */
  lemma SuccessRethrowsStaleException(c: Config, env: Environment, file: seq<byte>, arguments: map<Option<string>, Argument>, k: nat)
    requires 0 < k < Bound(c)
    requires forall j :: 0 <= j < k ==> EffectAt(c, env, j).kind.Failure?
    requires EffectAt(c, env, k).kind.Success?
    ensures var r := RunLoop(c, env, file, arguments);
      var e := EffectAt(c, env, k);
      c.hdfsFilePath.Some? &&
      r.outcome == Threw(EffectAt(c, env, k - 1).kind.error) &&
      r.state.attempts == k + 1 &&
      r.state.file == e.written &&
      r.state.arguments == Published(c, e.published.value, arguments)
  {
    StopsAtFirstNonFailure(c, env, None, State(0, 0, file, arguments), k);
    LoopArguments(c, env, None, State(0, 0, file, arguments));
    SuccessfulAttempt(c, env, env.connections(k));
    LastPublishWins(c, env, 0, k + 1, arguments);
  }

  /** A malformed URL or a protocol error ends the loop at once, wrapped in
      an IllegalStateException. */
  lemma AbortEndsTheLoop(c: Config, env: Environment, file: seq<byte>, arguments: map<Option<string>, Argument>, k: nat)
    requires k < Bound(c)
    requires forall j :: 0 <= j < k ==> EffectAt(c, env, j).kind.Failure?
    requires EffectAt(c, env, k).kind.Abort?
    ensures var r := RunLoop(c, env, file, arguments);
      r.outcome == Threw(IllegalState(EffectAt(c, env, k).kind.cause)) &&
      r.state.attempts == k + 1 &&
      r.state.arguments == ArgumentsAfter(c, env, 0, k + 1, arguments)
    ensures (forall j :: 0 <= j <= k ==> EffectAt(c, env, j).published.None?) ==>
      RunLoop(c, env, file, arguments).state.arguments == arguments
  {
    StopsAtFirstNonFailure(c, env, None, State(0, 0, file, arguments), k);
    LoopArguments(c, env, None, State(0, 0, file, arguments));
    if forall j :: 0 <= j <= k ==> EffectAt(c, env, j).published.None? {
      NothingPublished(c, env, 0, k + 1, arguments);
    }
  }

  /** In Binary format the file receives exactly the response bytes; in a
      format that is neither Binary nor Text, or with no response stream,
      the file is left empty and the attempt still succeeds. */
  lemma OutputByFormat(c: Config, env: Environment, stream: seq<byte>)
    requires c.outputFormat.Some?
    ensures EqualsIgnoreCase(c.outputFormat.value, "Binary") ==> Output(c, env, Some(stream)) == Wrote(stream)
    ensures !EqualsIgnoreCase(c.outputFormat.value, "Binary") && !EqualsIgnoreCase(c.outputFormat.value, "Text") ==>
      Output(c, env, Some(stream)) == Wrote([])
    ensures Output(c, env, None) == Wrote([])
  {
  }

  /** In Text format the file receives the decoded response re-encoded in
      the platform charset. */
  lemma TextOutput(c: Config, env: Environment, stream: seq<byte>, text: string)
    requires c.outputFormat == Some("Text") && c.charset.Some?
    requires env.decode(c.charset.value, stream) == Some(text)
    ensures Output(c, env, Some(stream)) == Wrote(Utf8(text))
  {
    assert EqualsIgnoreCase("Text", "Text");
    assert !EqualsIgnoreCase("Text", "Binary");
  }

  // ---------------------------------------------------------------------
  // The code
  // ---------------------------------------------------------------------

  /** The response written to the file by output format: the bytes as they
      come in Binary format, the decoded text re-encoded in Text format. */
  method WriteOutput(c: Config, env: Environment, stream: Option<seq<byte>>, file: HdfsFile)
    returns (thrown: Option<Exception>)
    modifies file
    ensures Output(c, env, stream).Wrote? ==>
      thrown.None? && file.contents == old(file.contents) + Output(c, env, stream).bytes
    ensures Output(c, env, stream).WriteThrew? ==>
      thrown == Some(Output(c, env, stream).error) && file.contents == old(file.contents)
  {
    if stream.None? {
      return None;
    }
    if c.outputFormat.None? {
      return Some(NullPointer);
    }
    if EqualsIgnoreCase(c.outputFormat.value, "Binary") {
      var input := new Source(stream.value);
      CopyBinary(input, file);
    } else if EqualsIgnoreCase(c.outputFormat.value, "Text") {
      if c.charset.None? {
        return Some(NullPointer);
      }
      var text := env.decode(c.charset.value, stream.value);
      if text.None? {
        return Some(UnsupportedCharset(c.charset.value));
      }
      var reader := new Source(text.value);
      CopyText(reader, file);
    }
    return None;
  }

  /** One attempt: the write phase creates the file (overwriting it), copies
      the response into it and publishes the arguments. */
  method Attempt(c: Config, env: Environment, conn: Connection, file: HdfsFile, arguments: Arguments)
    returns (kind: Kind, connected: bool)
    modifies file, arguments
    ensures var e := AttemptEffect(c, env, conn);
      kind == e.kind && connected == e.connected &&
      file.contents == (if e.created then e.written else old(file.contents)) &&
      arguments.values == PublishedArgs(c, e, old(arguments.values))
  {
    match conn {
      case NotOpened(t) =>
        return KindOf(t), false;
      case SetupThrew(t) =>
        return KindOf(t), true;
      case Opened(response) =>
        if c.hdfsFilePath.None? {
          return Failure(NullPathArgument), true;
        }
        file.Create();
        match response {
          case ResponseThrew(t) =>
            return KindOf(t), true;
          case Responded(stream, fields, closing) =>
            var thrown := WriteOutput(c, env, stream, file);
            if thrown.Some? {
              return Failure(thrown.value), true;
            }
            arguments.Set(c.outputPath, FilePath(c.hdfsFilePath.value));
            var flattened := FlattenHeaders(fields);
            arguments.Set(c.responseHeaders, Headers(flattened));
            if closing.Some? {
              return KindOf(closing.value), true;
            }
            return Success, true;
        }
    }
  }

  /** The do-while loop: `retries` counts the attempts made, `exception`
      keeps the last one caught and is never cleared. */
  method RetryLoop(c: Config, env: Environment, file: HdfsFile, arguments: Arguments)
    returns (outcome: Outcome, attempts: nat, disconnects: nat)
    modifies file, arguments
    ensures var r := RunLoop(c, env, old(file.contents), old(arguments.values));
      outcome == r.outcome && attempts == r.state.attempts && disconnects == r.state.disconnects &&
      file.contents == r.state.file && arguments.values == r.state.arguments
  {
    var retries: nat := 0;
    var exception: Option<Exception> := None;
    disconnects := 0;
    while true
      invariant LoopFrom(c, env, exception, State(retries, disconnects, file.contents, arguments.values)) ==
        RunLoop(c, env, old(file.contents), old(arguments.values))
      decreases (if c.numRetries.Some? then c.numRetries.value else 0) - retries
    {
      ghost var s := State(retries, disconnects, file.contents, arguments.values);
      ghost var e := EffectAt(c, env, retries);
      LoopStep(c, env, exception, s);
      var kind, connected := Attempt(c, env, env.connections(retries), file, arguments);
      if connected {
        disconnects := disconnects + 1;
      }
      assert State(retries + 1, disconnects, file.contents, arguments.values) == After(c, e, s);
      match kind {
        case Abort(cause) =>
          return Threw(IllegalState(cause)), retries + 1, disconnects;
        case Success =>
          outcome := if exception.None? then Completed else Threw(exception.value);
          return outcome, retries + 1, disconnects;
        case Failure(error) =>
          exception := Some(error);
      }
      retries := retries + 1;
      if c.numRetries.None? {
        return Threw(NullPointer), retries, disconnects;
      }
      if !(retries < c.numRetries.value) {
        break;
      }
    }
    outcome := Threw(exception.value);
    attempts := retries;
  }
}
