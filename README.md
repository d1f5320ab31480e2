# HTTP-to-HDFS action: a verified model

The HTTPToHDFS action of a CDAP data pipeline fetches a resource over HTTP and
writes the response body to a file in HDFS. It then publishes two runtime
arguments for later stages: the file path, and the flattened response
headers. The plugin exists in two versions:

- the current one (`io.cdap`) has a separate configuration class, a builder,
  and a validator that reports every violated rule to a failure collector;
- the legacy one (`co.cask`) nests its configuration in the action and
  validates fail-fast.

Both versions run the same retry loop.

This project models, in Dafny:

- the configuration: fourteen nullable properties with their defaults;
- the header-string parsers, with Java `String.split` semantics for limit 0
  (trailing empty pieces dropped; a string without the delimiter comes back
  whole) and limit 2;
- both validators;
- the builder;
- the loop of attempts, the buffered copy of the response into the file,
  and the flattening of the response headers.

The network is an oracle. `Retry.Environment.connections(k)` says how
attempt `k`'s dealings with `java.net` end:

- the URL is rejected;
- connection set-up throws;
- `getInputStream` throws;
- or a response arrives.

Each exception is either fatal (`MalformedURLException`,
`ProtocolException`) or transient (anything else). Decoding a byte stream in
a named charset is also an oracle, and so is `java.net.URL`
well-formedness (`Host.wellFormedUrl`). The set of properties left as
macros is an input.

Modules, one per file:

- `JavaLang` (`java_lang.dfy`): nullable references, `String.split` with
  and without a limit, ASCII upper-casing and case-insensitive equality.
- `PluginConfig` (`plugin_config.dfy`): the shared property set, defaults,
  field tags, failures and exceptions.
- `ActionConfig` (`action_config.dfy`): the current configuration class
  (validator, header map, builder, failure collector).
- `Transfer` (`transfer.dfy`): streams, the HDFS file, the binary and text
  copies, header flattening and the context's arguments.
- `Retry` (`retry.dfy`): one attempt and the do-while loop, with a
  tail-recursive specification `LoopFrom` and lemmas about it.
- `CdapAction` (`action.dfy`): the current `run`.
- `LegacyAction` (`legacy_action.dfy`): the legacy configuration's
  validator and parser, and the legacy `run`.

The `numRetries` property is described as "the number of times the request
should be retried if the request fails" (`HTTPToHDFSActionConfig.java:91`,
and the legacy action's line 236), which would mean `numRetries + 1`
attempts. The loop's test `retries < numRetries` comes after its body, so
when every attempt fails it makes `max(1, numRetries)` attempts; the model
follows the code.

Other behaviour of the code that the model keeps as it is:

- A success after a failed attempt still ends the run by throwing the
  earlier exception.
- An exception from closing the input stream, the file's output stream or
  the file system, after both arguments were published, counts as a failed
  attempt and the loop goes on.
- The current validator never checks `numRetries`.
- The current validator checks the URL and the method even when they are
  macros.
- The current validator splits a header line on every colon and drops
  trailing empty pieces. So `a:` and `a:b:c` fail its check, while the map
  builder, which splits at the first colon, accepts them.
- Header flattening drops empty names as well as null ones.

## Model

| member | source | states |
|---|---|---|
| JavaLang.DropTrailingEmpty | src/main/java/io/cdap/plugin/batch/http/to/hdfs/HTTPToHDFSActionConfig.java:271 | split with limit 0 removes only trailing empty pieces: the result is a prefix, ends in a non-empty piece, and everything dropped was empty |
| JavaLang.SplitLimit2 | src/main/java/io/cdap/plugin/batch/http/to/hdfs/HTTPToHDFSActionConfig.java:297 | split with limit 2: with a colon, two pieces that rebuild the line around its first colon, the first colon-free; without one, the line itself |
| JavaLang.SplitLimit2At | src/main/java/io/cdap/plugin/batch/http/to/hdfs/HTTPToHDFSActionConfig.java:297-299 | a line made of a colon-free name, a colon and any value splits into exactly that name and value |
| JavaLang.PiecesOfJoin | src/main/java/io/cdap/plugin/batch/http/to/hdfs/HTTPToHDFSActionConfig.java:270 | splitting delimiter-free parts joined by the delimiter gives the parts back |
| JavaLang.JoinOfPieces | src/main/java/io/cdap/plugin/batch/http/to/hdfs/HTTPToHDFSActionConfig.java:270 | joining the pieces of a string by the delimiter gives the string back |
| JavaLang.UpperCaseMatches | src/main/java/io/cdap/plugin/batch/http/to/hdfs/HTTPToHDFSActionConfig.java:279 | upper-casing a string yields an upper-case word exactly when the string equals it ignoring case |
| PluginConfig.MethodAcceptedIgnoringCase | src/main/java/io/cdap/plugin/batch/http/to/hdfs/HTTPToHDFSActionConfig.java:279-284 | the method check accepts exactly the strings equal to GET or POST ignoring case |
| ActionConfig.ShapedChunkIsWellFormed | src/main/java/io/cdap/plugin/batch/http/to/hdfs/HTTPToHDFSActionConfig.java:271-272 | a name, a colon, a non-empty value and any number of trailing colons pass the line check |
| ActionConfig.WellFormedChunkHasShape | src/main/java/io/cdap/plugin/batch/http/to/hdfs/HTTPToHDFSActionConfig.java:271-272 | every line that passes the check has exactly that shape |
| ActionConfig.EmptyValueRejected | src/main/java/io/cdap/plugin/batch/http/to/hdfs/HTTPToHDFSActionConfig.java:270-272 | a line whose value is empty fails the check |
| ActionConfig.ColonInValueRejected | src/main/java/io/cdap/plugin/batch/http/to/hdfs/HTTPToHDFSActionConfig.java:270-272 | a line whose value holds a colon followed by more text fails the check |
| ActionConfig.HeaderChunkExamplesRejected | src/test/java/io/cdap/plugin/batch/http/to/hdfs/HTTPToHDFSActionConfigTest.java:100-112 | `Test`, `a:` and `a:b:c` fail the line check |
| ActionConfig.HeaderChunkExamplesAccepted | src/main/java/io/cdap/plugin/batch/http/to/hdfs/HTTPToHDFSActionConfig.java:270-272 | `:b` and `a:b:` pass the line check |
| ActionConfig.HeaderChunkFailuresTagged | src/main/java/io/cdap/plugin/batch/http/to/hdfs/HTTPToHDFSActionConfig.java:272-276 | every header failure names an unparseable line and is tagged with the request-headers property; no more failures than lines |
| ActionConfig.HeaderChunkFailuresReportBadChunks | src/main/java/io/cdap/plugin/batch/http/to/hdfs/HTTPToHDFSActionConfig.java:270-277 | a line is reported exactly when it is one of the lines and fails the check |
| ActionConfig.HeaderChunkFailuresNone | src/main/java/io/cdap/plugin/batch/http/to/hdfs/HTTPToHDFSActionConfig.java:270-277 | no header failure exactly when every line passes the check |
| ActionConfig.HeaderChunkFailuresInLineOrder | src/main/java/io/cdap/plugin/batch/http/to/hdfs/HTTPToHDFSActionConfig.java:270-277 | the failures correspond one to one, in increasing line order, to the positions of the lines that fail the check |
| ActionConfig.HeaderChunkFailuresAreTheBadChunks | src/main/java/io/cdap/plugin/batch/http/to/hdfs/HTTPToHDFSActionConfig.java:269-278 | one request-headers failure per line that fails the check, repeats included and in line order (the j-th failure names the line at the j-th failing position, and the positions listed are exactly the failing ones), none when all pass |
| ActionConfig.RequestHeadersPass | src/main/java/io/cdap/plugin/batch/http/to/hdfs/HTTPToHDFSActionConfig.java:269-278 | the header stage adds nothing exactly when the property is a macro, null, empty, or all its lines pass |
| ActionConfig.ValidConfigHasNoFailures | src/main/java/io/cdap/plugin/batch/http/to/hdfs/HTTPToHDFSActionConfig.java:257-291 | no failure exactly when the URL parses, each timeout is a macro, null or non-negative, the headers are a macro, empty or all well formed, and the method is GET or POST in any case |
| ActionConfig.InFieldOrderAppend | src/main/java/io/cdap/plugin/batch/http/to/hdfs/HTTPToHDFSActionConfig.java:257-291 | appending a block of failures of higher-ranked properties keeps the validator's property order |
| ActionConfig.FailureBlocks | src/main/java/io/cdap/plugin/batch/http/to/hdfs/HTTPToHDFSActionConfig.java:257-291 | the failures are the URL, connect-timeout, header, method and read-timeout blocks in that order, each tagged with its own property; with a null method only the first three |
| ActionConfig.FailuresInFieldOrder | src/main/java/io/cdap/plugin/batch/http/to/hdfs/HTTPToHDFSActionConfig.java:257-291 | the failures come in the order URL, connect timeout, request headers, method, read timeout, and none is tagged with the retry count |
| ActionConfig.NumRetriesNeverValidated | src/main/java/io/cdap/plugin/batch/http/to/hdfs/HTTPToHDFSActionConfig.java:257-291 | changing the retry count, to a negative one or to null, changes no failure |
| ActionConfig.OneBrokenPropertyOneFailure | src/test/java/io/cdap/plugin/batch/http/to/hdfs/HTTPToHDFSActionConfigTest.java:58-126 | breaking one property of a configuration without failures gives exactly one failure, tagged with that property |
| ActionConfig.PutIsRejected | src/main/java/io/cdap/plugin/batch/http/to/hdfs/HTTPToHDFSActionConfig.java:279-284 | the method PUT yields a method failure |
| ActionConfig.DefaultConfigValidation | src/main/java/io/cdap/plugin/batch/http/to/hdfs/HTTPToHDFSActionConfig.java:121-133 | the default configuration fails only on its null URL, and passes once given a URL that parses |
| ActionConfig.FailureCollector.constructor | src/main/java/io/cdap/plugin/batch/http/to/hdfs/HTTPToHDFSAction.java:82 | the context hands out a collector that holds no failure |
| ActionConfig.FailureCollector.AddFailure | src/main/java/io/cdap/plugin/batch/http/to/hdfs/HTTPToHDFSActionConfig.java:261-262 | a failure is appended to those collected |
| ActionConfig.FailureCollector.GetOrThrowException | src/main/java/io/cdap/plugin/batch/http/to/hdfs/HTTPToHDFSAction.java:84 | throws exactly when something was collected, with everything collected |
| ActionConfig.CheckHeaderLines | src/main/java/io/cdap/plugin/batch/http/to/hdfs/HTTPToHDFSActionConfig.java:270-277 | the loop over the lines adds the header failures of all lines, in order |
| ActionConfig.Validate | src/main/java/io/cdap/plugin/batch/http/to/hdfs/HTTPToHDFSActionConfig.java:257-291 | adds every failure, in order; with a null method, the NullPointerException comes after the URL, connect-timeout and header failures were added |
| ActionConfig.LastNaming | src/main/java/io/cdap/plugin/batch/http/to/hdfs/HTTPToHDFSActionConfig.java:296-300 | the last line that names a header, if any |
| ActionConfig.HeaderLookup | src/main/java/io/cdap/plugin/batch/http/to/hdfs/HTTPToHDFSActionConfig.java:293-304 | a header is in the map exactly when some line names it before its first colon; its value is what follows the first colon on the last such line |
| ActionConfig.HeadersMapSkipsLinesWithoutColon | src/main/java/io/cdap/plugin/batch/http/to/hdfs/HTTPToHDFSActionConfig.java:295-300 | a null or empty property and a line without a colon give the empty map |
| ActionConfig.ChunksMapAppend | src/main/java/io/cdap/plugin/batch/http/to/hdfs/HTTPToHDFSActionConfig.java:297-299 | a line naming a colon-free header sets that header to everything after the first colon, whatever came before |
| ActionConfig.HeadersMapSplitsAtFirstColon | src/main/java/io/cdap/plugin/batch/http/to/hdfs/HTTPToHDFSActionConfig.java:293-304 | a one-line property `key:value` maps key to value, even when value is empty or holds colons |
| ActionConfig.SplitTwoLines | src/main/java/io/cdap/plugin/batch/http/to/hdfs/HTTPToHDFSActionConfig.java:296 | two lines joined by a newline split back into those lines |
| ActionConfig.HeadersMapLaterLineWins | src/main/java/io/cdap/plugin/batch/http/to/hdfs/HTTPToHDFSActionConfig.java:296-300 | of two lines naming the same header, the later one's value is kept |
| ActionConfig.ValidatedLinesAllReachTheMap | src/main/java/io/cdap/plugin/batch/http/to/hdfs/HTTPToHDFSActionConfig.java:269-304 | when the header check passes, every line has a colon, so the map builder skips none |
| ActionConfig.ConvertHeadersToMap | src/main/java/io/cdap/plugin/batch/http/to/hdfs/HTTPToHDFSActionConfig.java:293-304 | the loop builds the header map the specification defines |
| ActionConfig.Builder.constructor | src/main/java/io/cdap/plugin/batch/http/to/hdfs/HTTPToHDFSActionConfig.java:325-326 | a new builder builds a configuration with every property null |
| ActionConfig.Builder.SetHdfsFilePath | src/main/java/io/cdap/plugin/batch/http/to/hdfs/HTTPToHDFSActionConfig.java:328-331 | returns the builder itself; what it builds changes in the file path only |
| ActionConfig.Builder.SetUrl | src/main/java/io/cdap/plugin/batch/http/to/hdfs/HTTPToHDFSActionConfig.java:333-336 | returns the builder itself; what it builds changes in the URL only |
| ActionConfig.Builder.SetMethod | src/main/java/io/cdap/plugin/batch/http/to/hdfs/HTTPToHDFSActionConfig.java:338-341 | returns the builder itself; what it builds changes in the method only |
| ActionConfig.Builder.SetBody | src/main/java/io/cdap/plugin/batch/http/to/hdfs/HTTPToHDFSActionConfig.java:343-346 | returns the builder itself; what it builds changes in the body only |
| ActionConfig.Builder.SetRequestHeaders | src/main/java/io/cdap/plugin/batch/http/to/hdfs/HTTPToHDFSActionConfig.java:348-351 | returns the builder itself; what it builds changes in the request headers only |
| ActionConfig.Builder.SetOutputFormat | src/main/java/io/cdap/plugin/batch/http/to/hdfs/HTTPToHDFSActionConfig.java:353-356 | returns the builder itself; what it builds changes in the output format only |
| ActionConfig.Builder.SetCharset | src/main/java/io/cdap/plugin/batch/http/to/hdfs/HTTPToHDFSActionConfig.java:358-361 | returns the builder itself; what it builds changes in the charset only |
| ActionConfig.Builder.SetFollowRedirects | src/main/java/io/cdap/plugin/batch/http/to/hdfs/HTTPToHDFSActionConfig.java:363-366 | returns the builder itself; what it builds changes in the redirect flag only |
| ActionConfig.Builder.SetDisableSSLValidation | src/main/java/io/cdap/plugin/batch/http/to/hdfs/HTTPToHDFSActionConfig.java:368-371 | returns the builder itself; what it builds changes in the SSL flag only |
| ActionConfig.Builder.SetNumRetries | src/main/java/io/cdap/plugin/batch/http/to/hdfs/HTTPToHDFSActionConfig.java:373-376 | returns the builder itself; what it builds changes in the retry count only |
| ActionConfig.Builder.SetConnectTimeout | src/main/java/io/cdap/plugin/batch/http/to/hdfs/HTTPToHDFSActionConfig.java:378-381 | returns the builder itself; what it builds changes in the connect timeout only |
| ActionConfig.Builder.SetReadTimeout | src/main/java/io/cdap/plugin/batch/http/to/hdfs/HTTPToHDFSActionConfig.java:383-386 | returns the builder itself; what it builds changes in the read timeout only |
| ActionConfig.Builder.SetOutputPath | src/main/java/io/cdap/plugin/batch/http/to/hdfs/HTTPToHDFSActionConfig.java:388-391 | returns the builder itself; what it builds changes in the output-path name only |
| ActionConfig.Builder.SetResponseHeaders | src/main/java/io/cdap/plugin/batch/http/to/hdfs/HTTPToHDFSActionConfig.java:393-396 | returns the builder itself; what it builds changes in the response-headers name only |
| ActionConfig.BuilderOf | src/main/java/io/cdap/plugin/batch/http/to/hdfs/HTTPToHDFSActionConfig.java:178-194 | a fresh builder that builds exactly the copied configuration |
| ActionConfig.Copy | src/main/java/io/cdap/plugin/batch/http/to/hdfs/HTTPToHDFSActionConfig.java:157-194 | building a copy reproduces every property |
| ActionConfig.CopyWithMethod | src/test/java/io/cdap/plugin/batch/http/to/hdfs/HTTPToHDFSActionConfigTest.java:114-126 | a copy with one setter applied differs from the original in that property only |
| Transfer.Source.constructor | src/main/java/io/cdap/plugin/batch/http/to/hdfs/HTTPToHDFSAction.java:117 | the response stream starts with the whole body to read |
| Transfer.Source.Read | src/main/java/io/cdap/plugin/batch/http/to/hdfs/HTTPToHDFSAction.java:123 | at the end of the stream returns -1; otherwise fills a non-empty prefix of the buffer with the next elements and returns its length |
| Transfer.HdfsFile.constructor | src/main/java/io/cdap/plugin/batch/http/to/hdfs/HTTPToHDFSAction.java:114-115 | the file at the configured path, with its current contents |
| Transfer.HdfsFile.Create | src/main/java/io/cdap/plugin/batch/http/to/hdfs/HTTPToHDFSAction.java:116 | creating with overwrite leaves the file empty |
| Transfer.HdfsFile.Write | src/main/java/io/cdap/plugin/batch/http/to/hdfs/HTTPToHDFSAction.java:124 | appends exactly `len` bytes of the buffer from `off` |
| Transfer.CopyBinary | src/main/java/io/cdap/plugin/batch/http/to/hdfs/HTTPToHDFSAction.java:119-125 | the file gets the whole rest of the stream appended, each chunk written with its read count, and the stream is exhausted (the legacy plugin has the same loop at its lines 118-123) |
| Transfer.Utf8Char | src/main/java/io/cdap/plugin/batch/http/to/hdfs/HTTPToHDFSAction.java:132 | each character encodes to one to four bytes, and to one exactly when it is ASCII |
| Transfer.Utf8Append | src/main/java/io/cdap/plugin/batch/http/to/hdfs/HTTPToHDFSAction.java:131-133 | encoding a concatenation encodes the parts one after the other |
| Transfer.Utf8OfAscii | src/main/java/io/cdap/plugin/batch/http/to/hdfs/HTTPToHDFSAction.java:132 | ASCII text encodes to one byte per character |
| Transfer.Utf8NotShorter | src/main/java/io/cdap/plugin/batch/http/to/hdfs/HTTPToHDFSAction.java:132 | an encoding is never shorter than its text, so the code's byte count never runs past the encoded buffer |
| Transfer.TextChunkAsWritten | src/main/java/io/cdap/plugin/batch/http/to/hdfs/HTTPToHDFSAction.java:132 | the Text branch's write as coded: the first `i` bytes of the encoding of the whole buffer |
| Transfer.AsciiChunkAsWrittenIsExact | src/main/java/io/cdap/plugin/batch/http/to/hdfs/HTTPToHDFSAction.java:131-132 | when the characters read are ASCII, the write as coded puts out exactly their encoding |
| Transfer.TextChunkAsWrittenTruncates | src/main/java/io/cdap/plugin/batch/http/to/hdfs/HTTPToHDFSAction.java:131-132 | for a body holding a single two-byte character, the write as coded puts out one byte instead of two |
| Transfer.CopyText | src/main/java/io/cdap/plugin/batch/http/to/hdfs/HTTPToHDFSAction.java:126-135 | corrected Text copy: the file gets the encoding of the whole rest of the text appended |
| Transfer.NonNull | src/main/java/io/cdap/plugin/batch/http/to/hdfs/HTTPToHDFSAction.java:141 | keeps exactly the non-null values, and no more values than were given |
| Transfer.NonNullKeepsOrder | src/main/java/io/cdap/plugin/batch/http/to/hdfs/HTTPToHDFSAction.java:141 | skipping nulls keeps the other values in their order with their repeats: the j-th value kept is the one at the j-th non-null position, and every non-null position is kept |
| Transfer.JoinSkipNullsRoundTrip | src/main/java/io/cdap/plugin/batch/http/to/hdfs/HTTPToHDFSAction.java:141 | splitting a joined header value on commas gives back its non-null elements, when none holds a comma |
| Transfer.Flattened | src/main/java/io/cdap/plugin/batch/http/to/hdfs/HTTPToHDFSAction.java:138-143 | a name is present exactly when the connection reports it non-null and non-empty; its value is its values joined by commas, nulls skipped |
| Transfer.FlattenHeaders | src/main/java/io/cdap/plugin/batch/http/to/hdfs/HTTPToHDFSAction.java:138-143 | the loop builds exactly the flattened map (the legacy plugin flattens the same way at its lines 136-141) |
| Transfer.Arguments.constructor | src/main/java/io/cdap/plugin/batch/http/to/hdfs/HTTPToHDFSAction.java:137 | the context's runtime arguments as given |
| Transfer.Arguments.Set | src/main/java/io/cdap/plugin/batch/http/to/hdfs/HTTPToHDFSAction.java:137 | sets one argument and leaves the others |
| Retry.LoopStep | src/main/java/io/cdap/plugin/batch/http/to/hdfs/HTTPToHDFSAction.java:146-158 | one turn of the loop: an abort, a success, or a failure followed by the loop test |
| Retry.SuccessfulAttempt | src/main/java/io/cdap/plugin/batch/http/to/hdfs/HTTPToHDFSAction.java:114-146 | a successful attempt opened a connection, had a file path, created the file, wrote what the response format dictates, published the response headers, and closed its resources without an exception |
| Retry.PublishingAttempt | src/main/java/io/cdap/plugin/batch/http/to/hdfs/HTTPToHDFSAction.java:114-149 | an attempt publishes exactly when it got a response and wrote it; it then succeeds unless closing the resources threw, and ends as that exception does with the file written and the arguments published |
| Retry.LoopFromBounded | src/main/java/io/cdap/plugin/batch/http/to/hdfs/HTTPToHDFSAction.java:86-158 | from any attempt within the bound, the loop makes at least one more attempt and stays within the bound, closing each opened connection once |
| Retry.AttemptsAndDisconnects | src/main/java/io/cdap/plugin/batch/http/to/hdfs/HTTPToHDFSAction.java:152-158 | between one and `Bound` attempts, and one disconnect per attempt that opened a connection |
| Retry.LoopArguments | src/main/java/io/cdap/plugin/batch/http/to/hdfs/HTTPToHDFSAction.java:137-158 | however the loop ends, the arguments are what its attempts published, one after the other |
| Retry.NothingPublished | src/main/java/io/cdap/plugin/batch/http/to/hdfs/HTTPToHDFSAction.java:137-144 | attempts that publish nothing leave the arguments unchanged |
| Retry.LastPublishWins | src/main/java/io/cdap/plugin/batch/http/to/hdfs/HTTPToHDFSAction.java:137-144 | when the last attempt published, the arguments are its file path and headers over the original arguments, whatever earlier attempts published |
| Retry.PublishedTwice | src/main/java/io/cdap/plugin/batch/http/to/hdfs/HTTPToHDFSAction.java:137-144 | publishing again replaces both published names, so only the last headers count |
| Retry.StopsAtFirstNonFailure | src/main/java/io/cdap/plugin/batch/http/to/hdfs/HTTPToHDFSAction.java:146-161 | the loop stops at the first attempt that does not fail; an abort throws IllegalState, a success writes the file and throws the last recorded exception if there is one |
| Retry.AllAttemptsFail | src/main/java/io/cdap/plugin/batch/http/to/hdfs/HTTPToHDFSAction.java:149-161 | failing attempts run up to the bound, then the last exception is thrown |
| Retry.EveryAttemptFails | src/main/java/io/cdap/plugin/batch/http/to/hdfs/HTTPToHDFSAction.java:86-161 | when all fail: exactly max(1, numRetries) attempts, the last exception thrown (a NullPointerException for a null retry count), and the arguments those attempts published |
| Retry.FailedRunPublishesNothing | src/main/java/io/cdap/plugin/batch/http/to/hdfs/HTTPToHDFSAction.java:137-161 | a run whose attempts all fail, none of them after publishing, leaves the arguments unchanged |
| Retry.FailedRunKeepsLastPublish | src/main/java/io/cdap/plugin/batch/http/to/hdfs/HTTPToHDFSAction.java:137-161 | a failed run whose last attempt failed only in closing its resources leaves that attempt's file path and headers published |
| Retry.ClosingFailureAfterPublishing | src/main/java/io/cdap/plugin/batch/http/to/hdfs/HTTPToHDFSAction.java:115-152 | a single attempt that writes the response, publishes both arguments and then fails in closing throws that exception, with the file written and the arguments published |
| Retry.RetryCountExamples | src/main/java/io/cdap/plugin/batch/http/to/hdfs/HTTPToHDFSAction.java:157-158 | retry count 0 gives one attempt, 3 gives three |
| Retry.PublishedNames | src/main/java/io/cdap/plugin/batch/http/to/hdfs/HTTPToHDFSAction.java:137-144 | the file path is published under the output-path name and the flattened headers under the response-headers name (the headers win when the names coincide); no other argument changes |
| Retry.FirstAttemptSucceeds | src/main/java/io/cdap/plugin/batch/http/to/hdfs/HTTPToHDFSAction.java:137-146 | success at once: one attempt, nothing thrown, the file holds what was written, both arguments are published |
| Retry.SuccessRethrowsStaleException | src/main/java/io/cdap/plugin/batch/http/to/hdfs/HTTPToHDFSAction.java:146-161 | success after k failures writes and publishes, then throws the exception of attempt k-1 |
| Retry.AbortEndsTheLoop | src/main/java/io/cdap/plugin/batch/http/to/hdfs/HTTPToHDFSAction.java:147-148 | a malformed URL or protocol error ends the loop at once with an IllegalStateException; the arguments are what the earlier attempts published, unchanged when none published |
| Retry.OutputByFormat | src/main/java/io/cdap/plugin/batch/http/to/hdfs/HTTPToHDFSAction.java:119-136 | Binary writes exactly the response bytes; another format, or no stream, writes nothing |
| Retry.TextOutput | src/main/java/io/cdap/plugin/batch/http/to/hdfs/HTTPToHDFSAction.java:126-135 | Text writes the decoded response re-encoded |
| Retry.WriteOutput | src/main/java/io/cdap/plugin/batch/http/to/hdfs/HTTPToHDFSAction.java:118-136 | the file gets what the output format dictates appended, or the exception the write throws is returned with the file unchanged |
| Retry.Attempt | src/main/java/io/cdap/plugin/batch/http/to/hdfs/HTTPToHDFSAction.java:89-156 | one attempt leaves the file, the arguments and its result as its effect says: the file written when it was created, both arguments set once the response was written, and the closing exception, if any, reported as the attempt's result |
| Retry.RetryLoop | src/main/java/io/cdap/plugin/batch/http/to/hdfs/HTTPToHDFSAction.java:86-161 | the loop's outcome, attempt count, disconnects, file and arguments are those of the loop specification; the legacy loop at its lines 84-159 is the same code |
| CdapAction.Run | src/main/java/io/cdap/plugin/batch/http/to/hdfs/HTTPToHDFSAction.java:81-162 | validate, throw what was collected, else the loop; the whole new state is that of the run specification |
| CdapAction.InvalidConfigMakesNoAttempt | src/main/java/io/cdap/plugin/batch/http/to/hdfs/HTTPToHDFSAction.java:82-84 | a configuration with failures throws them all, with no attempt, file and arguments untouched |
| CdapAction.ValidConfigRunsTheLoop | src/main/java/io/cdap/plugin/batch/http/to/hdfs/HTTPToHDFSAction.java:82-86 | a configuration that passes validation runs the loop: a parsing URL, timeouts that are macros, null or non-negative, header lines that are a macro, null, empty or all well formed, and GET or POST in any case |
| CdapAction.ScenarioRunsTheLoop | src/test/java/io/cdap/plugin/batch/HTTPToHDFSActionTest.java:128-137 | the test's configuration passes validation |
| CdapAction.ScenarioFirstAttempt | src/main/java/io/cdap/plugin/batch/http/to/hdfs/HTTPToHDFSAction.java:114-135 | in the Text scenario, an attempt that gets a response creates the file and writes the decoded text re-encoded |
| CdapAction.TextResponseScenario | src/test/java/io/cdap/plugin/batch/HTTPToHDFSActionTest.java:124-163 | GET in Text with no retries and an ASCII response: one attempt, the file holds the text byte for byte, `filePath` is published |
| LegacyAction.FirstWithoutColon | src/main/java/co/cask/hydrator/plugin/batch/HTTPToHDFSAction.java:332-338 | the first line without a colon, if any |
| LegacyAction.LegacyParseAgrees | src/main/java/co/cask/hydrator/plugin/batch/HTTPToHDFSAction.java:329-342 | the legacy parse fails exactly on the first line without a colon; otherwise it builds the current parser's map |
| LegacyAction.LegacyHeadersAgree | src/main/java/co/cask/hydrator/plugin/batch/HTTPToHDFSAction.java:329-342 | a successful legacy parse equals the current header map; a failure names a line of the property that has no colon |
| LegacyAction.SingleLineHeaders | src/main/java/co/cask/hydrator/plugin/batch/HTTPToHDFSAction.java:331-332 | a one-line property parses as that line |
| LegacyAction.LegacyParsesOneLine | src/main/java/co/cask/hydrator/plugin/batch/HTTPToHDFSAction.java:329-342 | a one-line property `key:value` parses to key mapped to value |
| LegacyAction.LegacyAcceptsEmptyValue | src/main/java/co/cask/hydrator/plugin/batch/HTTPToHDFSAction.java:333-335 | a line `key:` parses in the legacy plugin to an empty value but fails the current validator |
| LegacyAction.LegacyAcceptsColonInValue | src/main/java/co/cask/hydrator/plugin/batch/HTTPToHDFSAction.java:333-335 | a line `key:v1:v2` parses in the legacy plugin to the value `v1:v2` but fails the current validator |
| LegacyAction.LegacyRejectsLineWithoutColon | src/main/java/co/cask/hydrator/plugin/batch/HTTPToHDFSAction.java:336-338 | `Test` is rejected by the legacy parser and skipped by the current one |
| LegacyAction.UnparseableStays | src/main/java/co/cask/hydrator/plugin/batch/HTTPToHDFSAction.java:336-338 | once a line fails to parse, the whole property fails on that line, whatever follows |
| LegacyAction.ConvertHeadersToMap | src/main/java/co/cask/hydrator/plugin/batch/HTTPToHDFSAction.java:329-342 | the loop returns the legacy parse, stopping at the first line without a colon |
| LegacyAction.CheckOrderFollowsRank | src/main/java/co/cask/hydrator/plugin/batch/HTTPToHDFSAction.java:304-327 | the checks cover every property, in rank order |
| LegacyAction.ValidationUnrolled | src/main/java/co/cask/hydrator/plugin/batch/HTTPToHDFSAction.java:304-327 | validation throws what the URL check throws, else the connect-timeout check, else the header parse, else the method, retry-count and read-timeout checks in turn |
| LegacyAction.LegacyFailFast | src/main/java/co/cask/hydrator/plugin/batch/HTTPToHDFSAction.java:304-327 | nothing is thrown exactly when every check passes; otherwise the lowest-ranked failing check's exception is thrown |
| LegacyAction.NegativeRetriesRejected | src/main/java/co/cask/hydrator/plugin/batch/HTTPToHDFSAction.java:319-322 | a negative retry count that is not a macro is rejected once the earlier checks pass, though the current validator ignores it |
| LegacyAction.MacroGuards | src/main/java/co/cask/hydrator/plugin/batch/HTTPToHDFSAction.java:306-318 | the method check is skipped for a macro and is otherwise case-insensitive GET/POST; the URL and header checks ignore macros |
| LegacyAction.LegacyDefaultConfigValidation | src/main/java/co/cask/hydrator/plugin/batch/HTTPToHDFSAction.java:264-276 | the default configuration is rejected for its null URL and accepted with a URL that parses |
| LegacyAction.Validate | src/main/java/co/cask/hydrator/plugin/batch/HTTPToHDFSAction.java:304-327 | throws what the validation specification says |
| LegacyAction.Run | src/main/java/co/cask/hydrator/plugin/batch/HTTPToHDFSAction.java:82-160 | validate, then the shared loop; the whole new state is that of the legacy run specification |
| LegacyAction.LoopHeaderParseSucceeds | src/main/java/co/cask/hydrator/plugin/batch/HTTPToHDFSAction.java:88 | after validation passes, the loop's header parse succeeds with the current header map |
| LegacyAction.LegacyInvalidConfigMakesNoAttempt | src/main/java/co/cask/hydrator/plugin/batch/HTTPToHDFSAction.java:83 | a configuration that fails a check throws with no attempt, file and arguments untouched |

## Left out

- HTTP mechanics are not modelled. The oracle decides each attempt's outcome in place of `openConnection`, request method and timeouts, redirects, request properties and sending the body.
- The TLS bypass is left out: the trust-all manager, the hostname verifier and the `https.protocols` system property are process-wide library state.
- `java.net.URL` parsing is an oracle predicate; the URL grammar is not modelled.
- HDFS is reduced to one file, the one at the configured path: `FileSystem.get` and `create` never fail, and path syntax is not modelled. A null path still fails the attempt, as Hadoop's `Path` constructor does.
- An exception in the middle of a copy (an I/O error after some bytes were written) is not modelled. A response body either arrives whole or `getInputStream` throws before anything is copied.
- Decoding in the configured charset is an oracle. Re-encoding assumes the platform default charset is UTF-8. A Java `char` is modelled as a Unicode scalar value, so surrogate pairs split across buffer boundaries are not modelled.
- Text output uses the corrected copy; see Findings.
- `toUpperCase` and `equalsIgnoreCase` are ASCII-only. Locale-specific and non-ASCII case mappings are not modelled.
- The JSON encoding of the flattened headers (Gson) is not modelled: the map itself is published.
- Logging, plugin annotations, `configurePipeline` and the fourteen-argument constructors are left out. `configurePipeline` only calls the same validators.
- A null value list among the response header fields is not modelled; `Joiner` would throw on it.
- The oracle's exceptions are opaque identifiers. Exception messages are not modelled.
- Closing the resources of `HTTPToHDFSAction.java:115-117` is one outcome per response: either nothing throws, or one exception does. When the body or a write already threw, Java suppresses any closing exception; the model keeps only the first one, as Java does, and does not record the suppressed one.
- Retry.Attempt: when closing throws, the file keeps everything written before the close; data lost in a buffer that failed to flush is not modelled.

## Findings

| source | as written | input that shows it | evidently intended | confidence | as-written member | corrected member |
|---|---|---|---|---|---|---|
| src/main/java/io/cdap/plugin/batch/http/to/hdfs/HTTPToHDFSAction.java:131-132 | after each read of `i` characters, the Text branch encodes the whole 4096-character buffer and writes the first `i` bytes of that encoding | a response whose text is the single character U+00E9 in UTF-8: the read returns 1 and one byte (0xC3) is written, where the character needs two | write the encoding of exactly the `i` characters read | high for any non-ASCII text; not executed | Transfer.TextChunkAsWritten, Transfer.TextChunkAsWrittenTruncates | Transfer.CopyText |
| src/main/java/co/cask/hydrator/plugin/batch/HTTPToHDFSAction.java:129-130 | the legacy Text branch writes the same byte prefix of the whole buffer's encoding | the same single-character response | write the encoding of exactly the `i` characters read | high for any non-ASCII text; not executed | Transfer.TextChunkAsWritten, Transfer.TextChunkAsWrittenTruncates | Transfer.CopyText |
