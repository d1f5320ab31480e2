/** The legacy action (co.cask) and its nested configuration: the same
    properties, defaults and retry loop as the current plugin, but a
    validator that throws at the first violated rule and a header parser
    that throws on a line without a colon. */
module LegacyAction {
  import opened JavaLang
  import opened PluginConfig
  import opened Transfer
  import opened Retry
  import ActionConfig

  // ---------------------------------------------------------------------
  // convertHeadersToMap
  // ---------------------------------------------------------------------

  /** The parsed header property, or the first line that has no colon. */
  datatype Parsed = Parsed(headers: map<string, string>) | Unparseable(chunk: string)

  /** The loop over the lines: each line is split at its first colon; a line
      without one ends the parse. */
  function LegacyChunksMap(chunks: seq<string>): Parsed
    decreases |chunks|
  {
    if chunks == [] then Parsed(map[])
    else
      match LegacyChunksMap(chunks[..|chunks| - 1])
      case Unparseable(chunk) => Unparseable(chunk)
      case Parsed(m) =>
        var last := chunks[|chunks| - 1];
        var keyValue := SplitLimit2(last, ActionConfig.KvDelimiter);
        if |keyValue| == 2 then Parsed(m[keyValue[0] := keyValue[1]]) else Unparseable(last)
  }

  function LegacyHeaders(headers: Option<string>): Parsed
  {
    if IsNullOrEmpty(headers) then Parsed(map[])
    else LegacyChunksMap(Split(headers.value, ActionConfig.Delimiter))
  }

  /** The index of the first line without a colon, or -1 when every line has one. */
  function FirstWithoutColon(chunks: seq<string>): (i: int)
    ensures -1 <= i < |chunks|
    ensures forall j :: 0 <= j < |chunks| && (i < 0 || j < i) ==> ActionConfig.KvDelimiter in chunks[j]
    ensures i >= 0 ==> ActionConfig.KvDelimiter !in chunks[i]
    decreases |chunks|
  {
    if chunks == [] then -1
    else
      var i := FirstWithoutColon(chunks[..|chunks| - 1]);
      if i >= 0 then i
      else if ActionConfig.KvDelimiter in chunks[|chunks| - 1] then -1
      else |chunks| - 1
  }

  /** The legacy parser fails exactly on the first line without a colon;
      when it succeeds it builds the same map as the current parser, which
      skips such lines instead. */
  lemma {:induction false} LegacyParseAgrees(chunks: seq<string>)
    ensures var i := FirstWithoutColon(chunks);
      (i < 0 ==> LegacyChunksMap(chunks) == Parsed(ActionConfig.ChunksMap(chunks))) &&
      (i >= 0 ==> LegacyChunksMap(chunks) == Unparseable(chunks[i]))
    decreases |chunks|
  {
    if chunks != [] {
      var init := chunks[..|chunks| - 1];
      LegacyParseAgrees(init);
      assert forall j :: 0 <= j < |init| ==> init[j] == chunks[j];
    }
  }

  /** The legacy header map agrees with the current one whenever the legacy
      parse succeeds. */
  lemma LegacyHeadersAgree(headers: Option<string>)
    ensures LegacyHeaders(headers).Parsed? ==> LegacyHeaders(headers).headers == ActionConfig.HeadersMap(headers)
    ensures LegacyHeaders(headers).Unparseable? ==>
      !IsNullOrEmpty(headers) && LegacyHeaders(headers).chunk in Split(headers.value, ActionConfig.Delimiter) &&
      ActionConfig.KvDelimiter !in LegacyHeaders(headers).chunk
  {
    if !IsNullOrEmpty(headers) {
      LegacyParseAgrees(Split(headers.value, ActionConfig.Delimiter));
    }
  }

  /** A property of one line parses as that line does. */
  lemma SingleLineHeaders(line: string)
    requires line != [] && ActionConfig.Delimiter !in line
    ensures LegacyHeaders(Some(line)) == LegacyChunksMap([line])
  {
  }

  /** A property of one line naming a colon-free header parses to that
      header with everything after the first colon as its value. */
  lemma LegacyParsesOneLine(key: string, value: string)
    requires ActionConfig.KvDelimiter !in key && ActionConfig.Delimiter !in key && ActionConfig.Delimiter !in value
    ensures LegacyHeaders(Some(key + [ActionConfig.KvDelimiter] + value)) == Parsed(map[key := value])
  {
    var line := key + [ActionConfig.KvDelimiter] + value;
    ActionConfig.HeaderLineHasNoNewline(key, value);
    SingleLineHeaders(line);
    SplitLimit2At(key, value, ActionConfig.KvDelimiter);
    assert [line][..0] == [];
  }

  /** A line with an empty value: the current validator rejects it, the
      legacy parser accepts it. */
  lemma LegacyAcceptsEmptyValue(key: string)
    requires ActionConfig.KvDelimiter !in key && ActionConfig.Delimiter !in key
    ensures LegacyHeaders(Some(key + [ActionConfig.KvDelimiter])) == Parsed(map[key := ""])
    ensures !ActionConfig.WellFormedHeaderChunk(key + [ActionConfig.KvDelimiter])
  {
    assert key + [ActionConfig.KvDelimiter] == key + [ActionConfig.KvDelimiter] + [];
    LegacyParsesOneLine(key, []);
    ActionConfig.EmptyValueRejected(key);
  }

  /** A value holding a colon followed by more text: the current validator
      rejects the line, the legacy parser accepts it with the whole value. */
  lemma LegacyAcceptsColonInValue(key: string, v1: string, v2: string)
    requires ActionConfig.KvDelimiter !in key && ActionConfig.Delimiter !in key
    requires ActionConfig.KvDelimiter !in v1 && ActionConfig.Delimiter !in v1
    requires ActionConfig.KvDelimiter !in v2 && ActionConfig.Delimiter !in v2 && v2 != []
    ensures LegacyHeaders(Some(key + [ActionConfig.KvDelimiter] + v1 + [ActionConfig.KvDelimiter] + v2)) ==
      Parsed(map[key := v1 + [ActionConfig.KvDelimiter] + v2])
    ensures !ActionConfig.WellFormedHeaderChunk(key + [ActionConfig.KvDelimiter] + v1 + [ActionConfig.KvDelimiter] + v2)
  {
    var d := ActionConfig.KvDelimiter;
    var value := v1 + [d] + v2;
    assert key + [d] + v1 + [d] + v2 == key + [d] + value;
    assert ActionConfig.Delimiter !in value;
    LegacyParsesOneLine(key, value);
    ActionConfig.ColonInValueRejected(key, v1, v2);
  }

  /** Both parsers drop or reject a line without a colon; the legacy one
      rejects it. */
  lemma LegacyRejectsLineWithoutColon()
    ensures LegacyHeaders(Some("Test")) == Unparseable("Test")
    ensures ActionConfig.HeadersMap(Some("Test")) == map[]
  {
    ActionConfig.HeadersMapSkipsLinesWithoutColon();
    SingleLineHeaders("Test");
    assert ["Test"][..0] == [];
  }

  /** Once a prefix of the lines fails to parse, the whole property fails
      on the same line. */
  lemma {:induction false} UnparseableStays(chunks: seq<string>, k: nat, chunk: string)
    requires k <= |chunks| && LegacyChunksMap(chunks[..k]) == Unparseable(chunk)
    ensures LegacyChunksMap(chunks) == Unparseable(chunk)
    decreases |chunks| - k
  {
    if k < |chunks| {
      assert chunks[..k + 1][..k] == chunks[..k];
      UnparseableStays(chunks, k + 1, chunk);
    } else {
      assert chunks[..k] == chunks;
    }
  }

  /** The parser's loop, which throws at the first line without a colon. */
  method ConvertHeadersToMap(headers: Option<string>) returns (r: Parsed)
    ensures r == LegacyHeaders(headers)
  {
    var m: map<string, string> := map[];
    if !IsNullOrEmpty(headers) {
      var chunks := Split(headers.value, ActionConfig.Delimiter);
      for i := 0 to |chunks|
        invariant LegacyChunksMap(chunks[..i]) == Parsed(m)
      {
        var keyValue := SplitLimit2(chunks[i], ActionConfig.KvDelimiter);
        assert chunks[..i + 1][..i] == chunks[..i];
        if |keyValue| == 2 {
          m := m[keyValue[0] := keyValue[1]];
        } else {
          UnparseableStays(chunks, i + 1, chunks[i]);
          return Unparseable(chunks[i]);
        }
      }
      assert chunks[..|chunks|] == chunks;
    }
    return Parsed(m);
  }

  // ---------------------------------------------------------------------
  // validate()
  // ---------------------------------------------------------------------

  /** What the check of one property throws, if anything. An Integer that is
      not a macro is unboxed for the comparison, so a null one throws. */
  function LegacyCheck(c: Config, host: Host, f: Field): Option<Exception>
  {
    match f
    case Url =>
      if host.UrlParses(c.url) then None else Some(IllegalArgument(MalformedUrl(c.url)))
    case ConnectTimeout =>
      if host.IsMacro(ConnectTimeout) then None
      else if c.connectTimeout.None? then Some(NullPointer)
      else if c.connectTimeout.value < 0 then Some(IllegalArgument(InvalidConnectTimeout(c.connectTimeout.value)))
      else None
    case RequestHeaders =>
      (match LegacyHeaders(c.requestHeaders)
       case Unparseable(chunk) => Some(IllegalArgument(UnparseableHeader(chunk)))
       case Parsed(_) => None)
    case Method =>
      if host.IsMacro(Method) then None
      else if c.httpMethod.None? then Some(NullPointer)
      else if !MethodAccepted(c.httpMethod.value) then Some(IllegalArgument(InvalidMethod(c.httpMethod.value)))
      else None
    case NumRetries =>
      if host.IsMacro(NumRetries) then None
      else if c.numRetries.None? then Some(NullPointer)
      else if c.numRetries.value < 0 then Some(IllegalArgument(InvalidNumRetries(c.numRetries.value)))
      else None
    case ReadTimeout =>
      if host.IsMacro(ReadTimeout) then None
      else if c.readTimeout.None? then Some(NullPointer)
      else if c.readTimeout.value < 0 then Some(IllegalArgument(InvalidReadTimeout(c.readTimeout.value)))
      else None
  }

  /** The checks in the validator's order. */
  const CheckOrder: seq<Field> := [Url, ConnectTimeout, RequestHeaders, Method, NumRetries, ReadTimeout]

  /** What the first failing check of `fields` throws. */
  function FirstThrown(c: Config, host: Host, fields: seq<Field>): Option<Exception>
    decreases |fields|
  {
    if fields == [] then None
    else if LegacyCheck(c, host, fields[0]).Some? then LegacyCheck(c, host, fields[0])
    else FirstThrown(c, host, fields[1..])
  }

  /** validate(): what it throws. */
  function LegacyValidation(c: Config, host: Host): Option<Exception>
  {
    FirstThrown(c, host, CheckOrder)
  }

  /** The checks run in the order of Field.Rank. */
  lemma CheckOrderFollowsRank()
    ensures forall i :: 0 <= i < |CheckOrder| ==> CheckOrder[i].Rank() == i
    ensures forall f: Field :: f in CheckOrder
  {
    forall f: Field ensures f in CheckOrder {
      assert CheckOrder[f.Rank()] == f;
    }
  }

  /** The validator's checks one after the other: the first that throws
      decides. */
  lemma ValidationUnrolled(c: Config, host: Host)
    ensures LegacyValidation(c, host) ==
      if LegacyCheck(c, host, Url).Some? then LegacyCheck(c, host, Url)
      else if LegacyCheck(c, host, ConnectTimeout).Some? then LegacyCheck(c, host, ConnectTimeout)
      else if LegacyCheck(c, host, RequestHeaders).Some? then LegacyCheck(c, host, RequestHeaders)
      else if LegacyCheck(c, host, Method).Some? then LegacyCheck(c, host, Method)
      else if LegacyCheck(c, host, NumRetries).Some? then LegacyCheck(c, host, NumRetries)
      else LegacyCheck(c, host, ReadTimeout)
  {
    var o := CheckOrder;
    assert o[1..] == [ConnectTimeout, RequestHeaders, Method, NumRetries, ReadTimeout];
    assert o[1..][1..] == [RequestHeaders, Method, NumRetries, ReadTimeout];
    assert o[1..][1..][1..] == [Method, NumRetries, ReadTimeout];
    assert o[1..][1..][1..][1..] == [NumRetries, ReadTimeout];
    assert o[1..][1..][1..][1..][1..] == [ReadTimeout];
    assert o[1..][1..][1..][1..][1..][1..] == [];
  }

  /** Fail-fast: validation throws nothing exactly when every check passes;
      otherwise it throws what the check of lowest rank that fails throws. */
  lemma LegacyFailFast(c: Config, host: Host)
    ensures LegacyValidation(c, host).None? <==> forall f: Field :: LegacyCheck(c, host, f).None?
    ensures forall f: Field ::
      (LegacyCheck(c, host, f).Some? && forall g: Field :: g.Rank() < f.Rank() ==> LegacyCheck(c, host, g).None?) ==>
      LegacyValidation(c, host) == LegacyCheck(c, host, f)
  {
    ValidationUnrolled(c, host);
  }

  /** Unlike the current validator, a negative retry count that is not a
      macro is rejected (once the earlier checks pass); a macro one is not
      checked. */
  lemma NegativeRetriesRejected(c: Config, host: Host)
    requires c.numRetries.Some? && c.numRetries.value < 0
    ensures LegacyCheck(c, host, NumRetries) ==
      (if host.IsMacro(NumRetries) then None else Some(IllegalArgument(InvalidNumRetries(c.numRetries.value))))
    ensures (!host.IsMacro(NumRetries) &&
      forall g: Field :: g.Rank() < NumRetries.Rank() ==> LegacyCheck(c, host, g).None?) ==>
      LegacyValidation(c, host) == Some(IllegalArgument(InvalidNumRetries(c.numRetries.value)))
    ensures ActionConfig.ValidationFailures(c, host) == ActionConfig.ValidationFailures(c.(numRetries := Some(0)), host)
  {
    LegacyFailFast(c, host);
    ActionConfig.NumRetriesNeverValidated(c, host, Some(0));
  }

  /** The method check is skipped for a macro; otherwise it is the
      case-insensitive GET/POST test (a null method throws). The header
      parse runs whatever the macros. */
  lemma MacroGuards(c: Config, host: Host, other: Host)
    ensures host.IsMacro(Method) ==> LegacyCheck(c, host, Method).None?
    ensures !host.IsMacro(Method) && c.httpMethod.Some? ==>
      (LegacyCheck(c, host, Method).None? <==>
        EqualsIgnoreCase(c.httpMethod.value, "GET") || EqualsIgnoreCase(c.httpMethod.value, "POST"))
    ensures LegacyCheck(c, host, RequestHeaders) == LegacyCheck(c, other, RequestHeaders)
    ensures LegacyCheck(c, host, Url) == (if host.UrlParses(c.url) then None else Some(IllegalArgument(MalformedUrl(c.url))))
  {
    if c.httpMethod.Some? {
      MethodAcceptedIgnoringCase(c.httpMethod.value);
    }
  }

  /** The default configuration is rejected for its null URL; with a URL that
      parses, it passes. */
  lemma LegacyDefaultConfigValidation(host: Host, url: string)
    ensures LegacyValidation(Default(), host) == Some(IllegalArgument(MalformedUrl(None)))
    ensures host.UrlParses(Some(url)) ==> LegacyValidation(Default().(url := Some(url)), host) == None
  {
    LegacyFailFast(Default(), host);
    var c := Default().(url := Some(url));
    MethodAcceptedIgnoringCase("GET");
    assert EqualsIgnoreCase("GET", "GET");
    LegacyFailFast(c, host);
    if host.UrlParses(Some(url)) {
      forall f: Field ensures LegacyCheck(c, host, f).None? {
      }
    }
  }

  /** validate(): the checks in order; the first failing one throws. */
  method Validate(c: Config, host: Host) returns (thrown: Option<Exception>)
    ensures thrown == LegacyValidation(c, host)
  {
    ValidationUnrolled(c, host);
    if !host.UrlParses(c.url) {
      return Some(IllegalArgument(MalformedUrl(c.url)));
    }
    if !host.IsMacro(ConnectTimeout) {
      if c.connectTimeout.None? {
        return Some(NullPointer);
      }
      if c.connectTimeout.value < 0 {
        return Some(IllegalArgument(InvalidConnectTimeout(c.connectTimeout.value)));
      }
    }
    var parsed := ConvertHeadersToMap(c.requestHeaders);
    if parsed.Unparseable? {
      return Some(IllegalArgument(UnparseableHeader(parsed.chunk)));
    }
    if !host.IsMacro(Method) {
      if c.httpMethod.None? {
        return Some(NullPointer);
      }
      if !MethodAccepted(c.httpMethod.value) {
        return Some(IllegalArgument(InvalidMethod(c.httpMethod.value)));
      }
    }
    if !host.IsMacro(NumRetries) {
      if c.numRetries.None? {
        return Some(NullPointer);
      }
      if c.numRetries.value < 0 {
        return Some(IllegalArgument(InvalidNumRetries(c.numRetries.value)));
      }
    }
    if !host.IsMacro(ReadTimeout) {
      if c.readTimeout.None? {
        return Some(NullPointer);
      }
      if c.readTimeout.value < 0 {
        return Some(IllegalArgument(InvalidReadTimeout(c.readTimeout.value)));
      }
    }
    return None;
  }

  // ---------------------------------------------------------------------
  // run
  // ---------------------------------------------------------------------

  function LegacyRun(c: Config, host: Host, env: Environment, file: seq<byte>,
                     arguments: map<Option<string>, Argument>): Retry.Run
  {
    match LegacyValidation(c, host)
    case Some(e) => Retry.Run(Threw(e), State(0, 0, file, arguments))
    case None => RunLoop(c, env, file, arguments)
  }

  /** run(context): validate, then the loop shared with the current action.
      The loop re-parses the headers at every attempt, outside its try
      block; after validation that parse cannot throw. */
  method Run(c: Config, host: Host, env: Environment, file: HdfsFile, arguments: Arguments)
    returns (outcome: Outcome, attempts: nat, disconnects: nat)
    modifies file, arguments
    ensures var r := LegacyRun(c, host, env, old(file.contents), old(arguments.values));
      outcome == r.outcome && attempts == r.state.attempts && disconnects == r.state.disconnects &&
      file.contents == r.state.file && arguments.values == r.state.arguments
  {
    var thrown := Validate(c, host);
    if thrown.Some? {
      return Threw(thrown.value), 0, 0;
    }
    outcome, attempts, disconnects := RetryLoop(c, env, file, arguments);
  }

  /** Once validation passes, the header parse inside the loop succeeds and
      yields the current plugin's header map. */
  lemma LoopHeaderParseSucceeds(c: Config, host: Host)
    requires LegacyValidation(c, host).None?
    ensures LegacyHeaders(c.requestHeaders) == Parsed(ActionConfig.HeadersMap(c.requestHeaders))
  {
    LegacyFailFast(c, host);
    assert LegacyCheck(c, host, RequestHeaders).None?;
    LegacyHeadersAgree(c.requestHeaders);
  }

  /** A configuration the validator rejects makes no attempt. */
  lemma LegacyInvalidConfigMakesNoAttempt(c: Config, host: Host, env: Environment, file: seq<byte>,
                                          arguments: map<Option<string>, Argument>)
    requires exists f: Field :: LegacyCheck(c, host, f).Some?
    ensures var r := LegacyRun(c, host, env, file, arguments);
      r.outcome.Threw? && r.state == State(0, 0, file, arguments)
  {
    LegacyFailFast(c, host);
  }
}
