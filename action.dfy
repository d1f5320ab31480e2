/** run(context) of the current action (io.cdap): validation into the
    context's failure collector, which throws if anything was collected,
    then the retry loop. */
module CdapAction {
  import opened JavaLang
  import opened PluginConfig
  import opened ActionConfig
  import opened Transfer
  import opened Retry

  /** A run of the action, given the failures the collector already held. */
  function ActionRun(c: Config, host: Host, env: Environment, collected: seq<Failure>,
                     file: seq<byte>, arguments: map<Option<string>, Argument>): Retry.Run
  {
    var none := State(0, 0, file, arguments);
    if ValidationThrows(c) then Retry.Run(Threw(NullPointer), none)
    else
      var failures := collected + ValidationFailures(c, host);
      if failures != [] then Retry.Run(Threw(ValidationFailed(failures)), none)
      else RunLoop(c, env, file, arguments)
  }

  method Run(c: Config, host: Host, env: Environment, collector: FailureCollector, file: HdfsFile, arguments: Arguments)
    returns (outcome: Outcome, attempts: nat, disconnects: nat)
    modifies collector, file, arguments
    ensures var r := ActionRun(c, host, env, old(collector.failures), old(file.contents), old(arguments.values));
      outcome == r.outcome && attempts == r.state.attempts && disconnects == r.state.disconnects &&
      file.contents == r.state.file && arguments.values == r.state.arguments
  {
    var npe := Validate(c, host, collector);
    if npe {
      return Threw(NullPointer), 0, 0;
    }
    var thrown := collector.GetOrThrowException();
    if thrown.Some? {
      return Threw(thrown.value), 0, 0;
    }
    outcome, attempts, disconnects := RetryLoop(c, env, file, arguments);
  }

  /** A configuration with any failure makes no attempt and touches neither
      the file nor the arguments; the run throws all the failures at once. */
  lemma InvalidConfigMakesNoAttempt(c: Config, host: Host, env: Environment,
                                    file: seq<byte>, arguments: map<Option<string>, Argument>)
    requires !ValidationThrows(c) && ValidationFailures(c, host) != []
    ensures var r := ActionRun(c, host, env, [], file, arguments);
      r == Retry.Run(Threw(ValidationFailed(ValidationFailures(c, host))), State(0, 0, file, arguments))
  {
    assert [] + ValidationFailures(c, host) == ValidationFailures(c, host);
  }

  /** A configuration that passes validation runs the loop: a URL that
      parses, timeouts that are macros, null or non-negative, header lines
      that are a macro, null, empty or all well formed, and GET or POST in
      any case. */
  lemma ValidConfigRunsTheLoop(c: Config, host: Host, env: Environment,
                               file: seq<byte>, arguments: map<Option<string>, Argument>)
    requires host.UrlParses(c.url) && c.httpMethod.Some?
    requires host.IsMacro(ConnectTimeout) || c.connectTimeout.None? || c.connectTimeout.value >= 0
    requires host.IsMacro(RequestHeaders) || IsNullOrEmpty(c.requestHeaders) ||
      forall chunk :: chunk in Split(c.requestHeaders.value, Delimiter) ==> WellFormedHeaderChunk(chunk)
    requires EqualsIgnoreCase(c.httpMethod.value, "GET") || EqualsIgnoreCase(c.httpMethod.value, "POST")
    requires host.IsMacro(ReadTimeout) || c.readTimeout.None? || c.readTimeout.value >= 0
    ensures ActionRun(c, host, env, [], file, arguments) == RunLoop(c, env, file, arguments)
  {
    ValidConfigHasNoFailures(c, host);
  }

  /** The scenario's configuration: the defaults with a URL that parses, a
      file path and no retries. */
  function ScenarioConfig(url: string, path: string): Config
  {
    Default().(url := Some(url), hdfsFilePath := Some(path), numRetries := Some(0))
  }

  lemma ScenarioRunsTheLoop(host: Host, env: Environment, url: string, path: string,
                            file: seq<byte>, arguments: map<Option<string>, Argument>)
    requires host.UrlParses(Some(url))
    ensures ActionRun(ScenarioConfig(url, path), host, env, [], file, arguments) ==
      RunLoop(ScenarioConfig(url, path), env, file, arguments)
  {
    assert EqualsIgnoreCase("GET", "GET");
    ValidConfigRunsTheLoop(ScenarioConfig(url, path), host, env, file, arguments);
  }

  /** In the scenario the first attempt succeeds and writes the text
      re-encoded. */
  lemma ScenarioFirstAttempt(env: Environment, url: string, path: string, body: seq<byte>,
                             text: string, fields: HeaderFields)
    requires env.connections(0) == Opened(Responded(Some(body), fields, None))
    requires env.decode("UTF-8", body) == Some(text)
    ensures EffectAt(ScenarioConfig(url, path), env, 0) == Effect(Success, true, true, Utf8(text), Some(fields))
  {
    TextOutput(ScenarioConfig(url, path), env, body, text);
  }

  /** The plugin's end-to-end scenario: a GET in Text format with charset
      UTF-8 and no retries, whose response decodes to ASCII text. One
      attempt; the file holds the text byte for byte, and the file path is
      published under "filePath". */
  lemma TextResponseScenario(host: Host, env: Environment, url: string, path: string, body: seq<byte>,
                             text: string, fields: HeaderFields, file: seq<byte>,
                             arguments: map<Option<string>, Argument>)
    requires host.UrlParses(Some(url))
    requires env.connections(0) == Opened(Responded(Some(body), fields, None))
    requires env.decode("UTF-8", body) == Some(text)
    requires forall k :: 0 <= k < |text| ==> (text[k] as int) < 0x80
    ensures var r := ActionRun(ScenarioConfig(url, path), host, env, [], file, arguments);
      r.outcome == Completed && r.state.attempts == 1 && r.state.disconnects == 1 &&
      |r.state.file| == |text| && r.state.file == Utf8(text) &&
      r.state.arguments[Some("filePath")] == FilePath(path)
  {
    var c := ScenarioConfig(url, path);
    ScenarioRunsTheLoop(host, env, url, path, file, arguments);
    ScenarioFirstAttempt(env, url, path, body, text, fields);
    FirstAttemptSucceeds(c, env, file, arguments);
    assert c.outputPath == Some("filePath") && c.responseHeaders == Some("responseHeaders");
    PublishedNames(c, fields, arguments);
    Utf8OfAscii(text);
  }
}
