/** The current plugin's configuration class (io.cdap): the validator that
    reports every violated rule to a failure collector, the parser that turns
    the request-header property into a map, and the builder. */
module ActionConfig {
  import opened JavaLang
  import opened PluginConfig

  /** Separates header lines. */
  const Delimiter: char := '\n'
  /** Separates a header's name from its value. */
  const KvDelimiter: char := ':'

  // ---------------------------------------------------------------------
  // Header lines as the validator sees them
  // ---------------------------------------------------------------------

  /** The validator's test of one header line: `chunk.split(":")` yields
      exactly two pieces. */
  predicate WellFormedHeaderChunk(chunk: string)
  {
    |Split(chunk, KvDelimiter)| == 2
  }

  lemma {:induction false} PiecesOfHeaderShape(key: string, value: string, n: nat)
    requires KvDelimiter !in key && KvDelimiter !in value
    ensures Pieces(key + [KvDelimiter] + value + Repeat(KvDelimiter, n), KvDelimiter) == [key, value] + Empties(n)
  {
    var tail := value + Repeat(KvDelimiter, n);
    assert key + [KvDelimiter] + value + Repeat(KvDelimiter, n) == key + [KvDelimiter] + tail;
    PiecesOfDelimited(key, tail, KvDelimiter);
    if n == 0 {
      assert tail == value;
      PiecesOfUndelimited(value, KvDelimiter);
    } else {
      assert tail == value + [KvDelimiter] + Repeat(KvDelimiter, n - 1);
      PiecesOfDelimited(value, Repeat(KvDelimiter, n - 1), KvDelimiter);
      PiecesOfRepeat(KvDelimiter, n - 1);
    }
  }

  /** Every line made of a colon-free name, a colon, a non-empty colon-free
      value and any number of further colons passes the check (the trailing
      colons only produce empty pieces, which split drops). */
  lemma ShapedChunkIsWellFormed(key: string, value: string, n: nat)
    requires KvDelimiter !in key && KvDelimiter !in value && value != []
    ensures WellFormedHeaderChunk(key + [KvDelimiter] + value + Repeat(KvDelimiter, n))
  {
    var chunk := key + [KvDelimiter] + value + Repeat(KvDelimiter, n);
    assert chunk[|key|] == KvDelimiter;
    PiecesOfHeaderShape(key, value, n);
    var p := Pieces(chunk, KvDelimiter);
    var r := DropTrailingEmpty(p);
    assert p[1] == value;
  }

  /** ... and every line that passes the check has that shape. */
  lemma WellFormedChunkHasShape(chunk: string)
    requires WellFormedHeaderChunk(chunk)
    ensures var p := Pieces(chunk, KvDelimiter);
      |p| >= 2 && KvDelimiter !in p[0] && KvDelimiter !in p[1] && p[1] != [] &&
      chunk == p[0] + [KvDelimiter] + p[1] + Repeat(KvDelimiter, |p| - 2)
  {
    var p := Pieces(chunk, KvDelimiter);
    assert KvDelimiter in chunk;
    var r := DropTrailingEmpty(p);
    assert |r| == 2 && r == p[..2];
    PiecesHaveNoDelimiter(chunk, KvDelimiter);
    assert KvDelimiter !in p[0] && KvDelimiter !in p[1];
    var n := |p| - 2;
    var shaped := p[0] + [KvDelimiter] + p[1] + Repeat(KvDelimiter, n);
    PiecesOfHeaderShape(p[0], p[1], n);
    assert Pieces(shaped, KvDelimiter) == p;
    JoinOfPieces(chunk, KvDelimiter);
    JoinOfPieces(shaped, KvDelimiter);
  }

  /** A line with an empty value fails the check: split drops the empty
      piece after the colon. */
  lemma EmptyValueRejected(key: string)
    requires KvDelimiter !in key
    ensures !WellFormedHeaderChunk(key + [KvDelimiter])
  {
    var line := key + [KvDelimiter];
    PiecesOfHeaderShape(key, [], 0);
    assert line == key + [KvDelimiter] + [] + Repeat(KvDelimiter, 0);
    assert line[|key|] == KvDelimiter;
    assert DropTrailingEmpty([key, []]) == DropTrailingEmpty([key]);
  }

  /** A line whose value holds a colon followed by more text fails the
      check: it splits into three pieces. */
  lemma ColonInValueRejected(key: string, v1: string, v2: string)
    requires KvDelimiter !in key && KvDelimiter !in v1 && KvDelimiter !in v2 && v2 != []
    ensures !WellFormedHeaderChunk(key + [KvDelimiter] + v1 + [KvDelimiter] + v2)
  {
    var d := KvDelimiter;
    var line := key + [d] + v1 + [d] + v2;
    PiecesOfJoin([key, v1, v2], d);
    assert [key, v1, v2][1..] == [v1, v2];
    assert [v1, v2][1..] == [v2];
    assert Join([v1, v2], d) == v1 + [d] + v2;
    assert Join([key, v1, v2], d) == line;
    assert line[|key|] == d;
    assert DropTrailingEmpty([key, v1, v2]) == [key, v1, v2];
  }

  /** The lines the plugin's tests and documentation reject. */
  lemma HeaderChunkExamplesRejected()
    ensures !WellFormedHeaderChunk("Test")
    ensures !WellFormedHeaderChunk("a:")
    ensures !WellFormedHeaderChunk("a:b:c")
  {
    EmptyValueRejected("a");
    assert "a" + [KvDelimiter] == "a:";
    ColonInValueRejected("a", "b", "c");
    assert "a" + [KvDelimiter] + "b" + [KvDelimiter] + "c" == "a:b:c";
  }

  /** The lines the plugin's tests and documentation accept. */
  lemma HeaderChunkExamplesAccepted()
    ensures WellFormedHeaderChunk(":b")
    ensures WellFormedHeaderChunk("a:b:")
  {
    ShapedChunkIsWellFormed([], "b", 0);
    assert [] + [KvDelimiter] + "b" + Repeat(KvDelimiter, 0) == ":b";
    ShapedChunkIsWellFormed("a", "b", 1);
    assert "a" + [KvDelimiter] + "b" + Repeat(KvDelimiter, 1) == "a:b:";
  }

  // ---------------------------------------------------------------------
  // validate(FailureCollector): the specification
  // ---------------------------------------------------------------------

  function UrlFailures(c: Config, host: Host): (failures: seq<Failure>)
  {
    if host.UrlParses(c.url) then [] else [MalformedUrl(c.url)]
  }

  function ConnectTimeoutFailures(c: Config, host: Host): (failures: seq<Failure>)
  {
    if !host.IsMacro(ConnectTimeout) && c.connectTimeout.Some? && c.connectTimeout.value < 0
    then [InvalidConnectTimeout(c.connectTimeout.value)] else []
  }

  /** One failure per line that fails the check, in line order. */
  function HeaderChunkFailures(chunks: seq<string>): (failures: seq<Failure>)
    decreases |chunks|
  {
    if chunks == [] then []
    else
      var last := chunks[|chunks| - 1];
      HeaderChunkFailures(chunks[..|chunks| - 1]) +
      (if WellFormedHeaderChunk(last) then [] else [UnparseableHeader(last)])
  }

  function RequestHeaderFailures(c: Config, host: Host): (failures: seq<Failure>)
  {
    if host.IsMacro(RequestHeaders) || IsNullOrEmpty(c.requestHeaders) then []
    else HeaderChunkFailures(Split(c.requestHeaders.value, Delimiter))
  }

  function MethodFailures(m: string): (failures: seq<Failure>)
  {
    if MethodAccepted(m) then [] else [InvalidMethod(m)]
  }

  function ReadTimeoutFailures(c: Config, host: Host): (failures: seq<Failure>)
  {
    if !host.IsMacro(ReadTimeout) && c.readTimeout.Some? && c.readTimeout.value < 0
    then [InvalidReadTimeout(c.readTimeout.value)] else []
  }

  /** Validation ends in a NullPointerException when the method is null
      (upper-casing it dereferences it). */
  predicate ValidationThrows(c: Config)
  {
    c.httpMethod.None?
  }

  /** The failures validation adds, in the order it adds them; when the method
      is null only those found before the method check. */
  function ValidationFailures(c: Config, host: Host): (failures: seq<Failure>)
  {
    UrlFailures(c, host) + ConnectTimeoutFailures(c, host) + RequestHeaderFailures(c, host) +
    (if c.httpMethod.None? then [] else MethodFailures(c.httpMethod.value) + ReadTimeoutFailures(c, host))
  }

  // ---------------------------------------------------------------------
  // Properties of validation
  // ---------------------------------------------------------------------

  /** Each header failure is an unparseable line, tagged with the
      request-headers property, and there are no more of them than lines. */
  lemma {:induction false} HeaderChunkFailuresTagged(chunks: seq<string>)
    ensures var fs := HeaderChunkFailures(chunks);
      |fs| <= |chunks| &&
      forall i :: 0 <= i < |fs| ==> fs[i].UnparseableHeader? && fs[i].Property() == RequestHeaders
    decreases |chunks|
  {
    if chunks != [] {
      HeaderChunkFailuresTagged(chunks[..|chunks| - 1]);
    }
  }

  /** The lines reported are exactly the lines that fail the check. */
  lemma {:induction false} HeaderChunkFailuresReportBadChunks(chunks: seq<string>)
    ensures forall chunk :: UnparseableHeader(chunk) in HeaderChunkFailures(chunks) <==>
      chunk in chunks && !WellFormedHeaderChunk(chunk)
    decreases |chunks|
  {
    if chunks != [] {
      var init, last := chunks[..|chunks| - 1], chunks[|chunks| - 1];
      HeaderChunkFailuresReportBadChunks(init);
      assert chunks == init + [last];
      forall chunk ensures chunk in chunks <==> chunk in init || chunk == last {
      }
    }
  }

  /** No header failure exactly when every line passes the check. */
  lemma {:induction false} HeaderChunkFailuresNone(chunks: seq<string>)
    ensures HeaderChunkFailures(chunks) == [] <==> forall k :: 0 <= k < |chunks| ==> WellFormedHeaderChunk(chunks[k])
    decreases |chunks|
  {
    if chunks != [] {
      var init := chunks[..|chunks| - 1];
      HeaderChunkFailuresNone(init);
      assert forall k :: 0 <= k < |init| ==> init[k] == chunks[k];
    }
  }

  /** A header line the validator reports. */
  predicate BadHeaderChunk(chunk: string)
  {
    !WellFormedHeaderChunk(chunk)
  }

  /** One failure per failing line, repeats included, in line order: the
      j-th failure names the line at the j-th failing position, and every
      failing position is among them. */
  lemma {:induction false} HeaderChunkFailuresInLineOrder(chunks: seq<string>)
    ensures var fs, idx := HeaderChunkFailures(chunks), Positions(chunks, BadHeaderChunk);
      |idx| == |fs| &&
      (forall j :: 0 <= j < |idx| ==>
        idx[j] < |chunks| && !WellFormedHeaderChunk(chunks[idx[j]]) && fs[j] == UnparseableHeader(chunks[idx[j]])) &&
      (forall j, j' :: 0 <= j < j' < |idx| ==> idx[j] < idx[j']) &&
      (forall k :: 0 <= k < |chunks| && !WellFormedHeaderChunk(chunks[k]) ==> k in idx)
    decreases |chunks|
  {
    PositionsAreExact(chunks, BadHeaderChunk);
    if chunks != [] {
      var init := chunks[..|chunks| - 1];
      HeaderChunkFailuresInLineOrder(init);
      PositionsAreExact(init, BadHeaderChunk);
      assert forall k :: 0 <= k < |init| ==> init[k] == chunks[k];
    }
  }

  /** The header failures are exactly the lines that fail the check, each
      tagged with the request-headers property: one failure per failing
      line, repeats included, in line order. */
  lemma HeaderChunkFailuresAreTheBadChunks(chunks: seq<string>)
    ensures var fs := HeaderChunkFailures(chunks);
      |fs| <= |chunks| &&
      (forall i :: 0 <= i < |fs| ==> fs[i].UnparseableHeader? && fs[i].Property() == RequestHeaders) &&
      (forall chunk :: UnparseableHeader(chunk) in fs <==> chunk in chunks && !WellFormedHeaderChunk(chunk)) &&
      (fs == [] <==> forall k :: 0 <= k < |chunks| ==> WellFormedHeaderChunk(chunks[k])) &&
      var idx := Positions(chunks, BadHeaderChunk);
      |idx| == |fs| &&
      (forall j :: 0 <= j < |idx| ==> idx[j] < |chunks| && fs[j] == UnparseableHeader(chunks[idx[j]])) &&
      (forall j, j' :: 0 <= j < j' < |idx| ==> idx[j] < idx[j']) &&
      (forall k :: 0 <= k < |chunks| ==> (k in idx <==> !WellFormedHeaderChunk(chunks[k])))
  {
    HeaderChunkFailuresInLineOrder(chunks);
    HeaderChunkFailuresTagged(chunks);
    HeaderChunkFailuresReportBadChunks(chunks);
    HeaderChunkFailuresNone(chunks);
  }

  /** A configuration passes validation without a single failure exactly when
      its URL parses, its timeouts are null, non-negative or macros, its
      header lines all pass (or the property is a macro, null or empty) and
      its method is GET or POST in any case. */
  lemma ValidConfigHasNoFailures(c: Config, host: Host)
    requires !ValidationThrows(c)
    ensures ValidationFailures(c, host) == [] <==>
      host.UrlParses(c.url) &&
      (host.IsMacro(ConnectTimeout) || c.connectTimeout.None? || c.connectTimeout.value >= 0) &&
      (host.IsMacro(RequestHeaders) || IsNullOrEmpty(c.requestHeaders) ||
        forall chunk :: chunk in Split(c.requestHeaders.value, Delimiter) ==> WellFormedHeaderChunk(chunk)) &&
      (EqualsIgnoreCase(c.httpMethod.value, "GET") || EqualsIgnoreCase(c.httpMethod.value, "POST")) &&
      (host.IsMacro(ReadTimeout) || c.readTimeout.None? || c.readTimeout.value >= 0)
  {
    MethodAcceptedIgnoringCase(c.httpMethod.value);
    RequestHeadersPass(c, host);
    var u, t, h := UrlFailures(c, host), ConnectTimeoutFailures(c, host), RequestHeaderFailures(c, host);
    var m, r := MethodFailures(c.httpMethod.value), ReadTimeoutFailures(c, host);
    assert ValidationFailures(c, host) == u + t + h + (m + r);
    assert |ValidationFailures(c, host)| == |u| + |t| + |h| + |m| + |r|;
  }

  /** The request headers add no failure exactly when they are a macro, null,
      empty, or made of lines that all pass the check. */
  lemma RequestHeadersPass(c: Config, host: Host)
    ensures RequestHeaderFailures(c, host) == [] <==>
      host.IsMacro(RequestHeaders) || IsNullOrEmpty(c.requestHeaders) ||
      forall chunk :: chunk in Split(c.requestHeaders.value, Delimiter) ==> WellFormedHeaderChunk(chunk)
  {
    if !host.IsMacro(RequestHeaders) && !IsNullOrEmpty(c.requestHeaders) {
      var chunks := Split(c.requestHeaders.value, Delimiter);
      HeaderChunkFailuresNone(chunks);
      assert (forall chunk :: chunk in chunks ==> WellFormedHeaderChunk(chunk)) <==>
             (forall k :: 0 <= k < |chunks| ==> WellFormedHeaderChunk(chunks[k]));
    }
  }

  /** Every failure in `fs` is tagged with a property of rank `lo` to `hi`. */
  predicate RanksWithin(fs: seq<Failure>, lo: nat, hi: nat)
  {
    forall i :: 0 <= i < |fs| ==> lo <= fs[i].Property().Rank() <= hi
  }

  /** The failures' properties come in the validator's order. */
  predicate InFieldOrder(fs: seq<Failure>)
  {
    forall i, j :: 0 <= i < j < |fs| ==> fs[i].Property().Rank() <= fs[j].Property().Rank()
  }

  lemma InFieldOrderAppend(a: seq<Failure>, b: seq<Failure>, lo: nat, mid: nat, hi: nat)
    requires lo <= mid <= hi
    requires InFieldOrder(a) && RanksWithin(a, lo, mid)
    requires InFieldOrder(b) && RanksWithin(b, mid, hi)
    ensures InFieldOrder(a + b) && RanksWithin(a + b, lo, hi)
  {
    forall i | 0 <= i < |a + b| ensures lo <= (a + b)[i].Property().Rank() <= hi {
      if i < |a| {
        assert (a + b)[i] == a[i];
      } else {
        assert (a + b)[i] == b[i - |a|];
      }
    }
    forall i, j | 0 <= i < j < |a + b|
      ensures (a + b)[i].Property().Rank() <= (a + b)[j].Property().Rank()
    {
      if j < |a| {
        assert (a + b)[i] == a[i] && (a + b)[j] == a[j];
      } else if i < |a| {
        assert (a + b)[i] == a[i] && (a + b)[j] == b[j - |a|];
      } else {
        assert (a + b)[i] == b[i - |a|] && (a + b)[j] == b[j - |a|];
      }
    }
  }

  /** Every failure in `fs` is tagged with a property of rank `r`. */
  predicate AllOfRank(fs: seq<Failure>, r: nat)
  {
    forall i :: 0 <= i < |fs| ==> fs[i].Property().Rank() == r
  }

  /** A block whose failures all share one property is in order. */
  lemma SameRankInOrder(fs: seq<Failure>, r: nat)
    requires AllOfRank(fs, r)
    ensures InFieldOrder(fs) && RanksWithin(fs, r, r)
  {
  }

  /** No failure of a block of another rank is about the retry count. */
  lemma NotAboutRetries(fs: seq<Failure>, r: nat)
    requires AllOfRank(fs, r) && r != NumRetries.Rank()
    ensures forall f :: f in fs ==> f.Property() != NumRetries
  {
    forall f | f in fs ensures f.Property() != NumRetries {
      var i :| 0 <= i < |fs| && fs[i] == f;
    }
  }

  /** Blocks of ranks 0, 1 and 2, concatenated, are in order and hold no
      retry-count failure. */
  lemma ThreeBlocksInOrder(u: seq<Failure>, t: seq<Failure>, h: seq<Failure>, vf: seq<Failure>)
    requires AllOfRank(u, 0) && AllOfRank(t, 1) && AllOfRank(h, 2)
    requires vf == u + t + h
    ensures InFieldOrder(vf) && RanksWithin(vf, 0, 2)
    ensures forall f :: f in vf ==> f.Property() != NumRetries
  {
    SameRankInOrder(u, 0);
    SameRankInOrder(t, 1);
    SameRankInOrder(h, 2);
    InFieldOrderAppend(u, t, 0, 1, 1);
    InFieldOrderAppend(u + t, h, 0, 2, 2);
    NotAboutRetries(u, 0);
    NotAboutRetries(t, 1);
    NotAboutRetries(h, 2);
  }

  /** ... followed by blocks of ranks 3 and 5, likewise. */
  lemma FiveBlocksInOrder(u: seq<Failure>, t: seq<Failure>, h: seq<Failure>, m: seq<Failure>, r: seq<Failure>,
                          vf: seq<Failure>)
    requires AllOfRank(u, 0) && AllOfRank(t, 1) && AllOfRank(h, 2) && AllOfRank(m, 3) && AllOfRank(r, 5)
    requires vf == u + t + h + (m + r)
    ensures InFieldOrder(vf)
    ensures forall f :: f in vf ==> f.Property() != NumRetries
  {
    ThreeBlocksInOrder(u, t, h, u + t + h);
    SameRankInOrder(m, 3);
    SameRankInOrder(r, 5);
    InFieldOrderAppend(m, r, 3, 3, 5);
    InFieldOrderAppend(u + t + h, m + r, 0, 3, 5);
    NotAboutRetries(m, 3);
    NotAboutRetries(r, 5);
  }

  /** Every request-header failure is tagged with the request-headers property. */
  lemma RequestHeaderFailuresTagged(c: Config, host: Host)
    ensures AllOfRank(RequestHeaderFailures(c, host), RequestHeaders.Rank())
  {
    if !host.IsMacro(RequestHeaders) && !IsNullOrEmpty(c.requestHeaders) {
      HeaderChunkFailuresAreTheBadChunks(Split(c.requestHeaders.value, Delimiter));
    }
  }

  /** The failures validation adds, block by block, each block tagged with
      one property. */
  lemma FailureBlocks(c: Config, host: Host)
    ensures AllOfRank(UrlFailures(c, host), 0) && AllOfRank(ConnectTimeoutFailures(c, host), 1)
    ensures AllOfRank(RequestHeaderFailures(c, host), 2)
    ensures c.httpMethod.Some? ==>
      AllOfRank(MethodFailures(c.httpMethod.value), 3) && AllOfRank(ReadTimeoutFailures(c, host), 5) &&
      ValidationFailures(c, host) == UrlFailures(c, host) + ConnectTimeoutFailures(c, host) + RequestHeaderFailures(c, host) +
        (MethodFailures(c.httpMethod.value) + ReadTimeoutFailures(c, host))
    ensures c.httpMethod.None? ==>
      ValidationFailures(c, host) == UrlFailures(c, host) + ConnectTimeoutFailures(c, host) + RequestHeaderFailures(c, host)
  {
    RequestHeaderFailuresTagged(c, host);
    if c.httpMethod.None? {
      var p := UrlFailures(c, host) + ConnectTimeoutFailures(c, host) + RequestHeaderFailures(c, host);
      assert p + [] == p;
    }
  }

  /** Validation never stops at a failure: the failures come in the fixed
      order URL, connect timeout, request headers, method, read timeout, and
      none of them is ever about the retry count. */
  lemma FailuresInFieldOrder(c: Config, host: Host)
    ensures InFieldOrder(ValidationFailures(c, host))
    ensures forall f :: f in ValidationFailures(c, host) ==> f.Property() != NumRetries
  {
    FailureBlocks(c, host);
    var u, t, h := UrlFailures(c, host), ConnectTimeoutFailures(c, host), RequestHeaderFailures(c, host);
    if c.httpMethod.Some? {
      FiveBlocksInOrder(u, t, h, MethodFailures(c.httpMethod.value), ReadTimeoutFailures(c, host), ValidationFailures(c, host));
    } else {
      ThreeBlocksInOrder(u, t, h, ValidationFailures(c, host));
    }
  }

  /** The retry count is never validated: changing it changes no failure. */
  lemma NumRetriesNeverValidated(c: Config, host: Host, n: Option<int>)
    ensures ValidationFailures(c.(numRetries := n), host) == ValidationFailures(c, host)
    ensures ValidationThrows(c.(numRetries := n)) == ValidationThrows(c)
  {
  }

  /** Starting from a configuration without failures, breaking exactly one
      property yields exactly one failure, tagged with that property. */
  lemma OneBrokenPropertyOneFailure(c: Config, host: Host, url: Option<string>, timeout: int, line: string, m: string)
    requires !ValidationThrows(c) && ValidationFailures(c, host) == []
    requires !host.UrlParses(url)
    requires timeout < 0 && !host.IsMacro(ConnectTimeout) && !host.IsMacro(ReadTimeout)
    requires !host.IsMacro(RequestHeaders) && line != [] && KvDelimiter !in line && Delimiter !in line
    requires !MethodAccepted(m)
    ensures ValidationFailures(c.(url := url), host) == [MalformedUrl(url)]
    ensures ValidationFailures(c.(connectTimeout := Some(timeout)), host) == [InvalidConnectTimeout(timeout)]
    ensures ValidationFailures(c.(requestHeaders := Some(line)), host) == [UnparseableHeader(line)]
    ensures ValidationFailures(c.(httpMethod := Some(m)), host) == [InvalidMethod(m)]
    ensures ValidationFailures(c.(readTimeout := Some(timeout)), host) == [InvalidReadTimeout(timeout)]
  {
    assert Split(line, Delimiter) == [line];
    assert !WellFormedHeaderChunk(line);
    assert HeaderChunkFailures([line]) == [UnparseableHeader(line)] by {
      assert [line][..0] == [];
    }
  }

  /** PUT is not an accepted method. */
  lemma PutIsRejected()
    ensures MethodFailures("PUT") == [InvalidMethod("PUT")]
  {
    var up := ToUpperCase("PUT");
    assert |up| == 3 && up[0] == 'P';
    assert up != "GET" by { assert "GET"[0] == 'G'; }
    assert up != "POST";
  }

  /** The default configuration fails only on its null URL; given a URL that
      parses, it passes validation. */
  lemma DefaultConfigValidation(host: Host, url: Option<string>)
    ensures !ValidationThrows(Default())
    ensures ValidationFailures(Default(), host) == [MalformedUrl(None)]
    ensures ValidationFailures(Default().(url := url), host) ==
      (if host.UrlParses(url) then [] else [MalformedUrl(url)])
  {
    MethodAcceptedIgnoringCase("GET");
  }

  // ---------------------------------------------------------------------
  // validate(FailureCollector): the code
  // ---------------------------------------------------------------------

  /** The host's failure collector, as far as the plugin uses it. */
  class FailureCollector {
    var failures: seq<Failure>

    constructor ()
      ensures failures == []
    {
      failures := [];
    }

    method AddFailure(f: Failure)
      modifies this
      ensures failures == old(failures) + [f]
    {
      failures := failures + [f];
    }

    /** getOrThrowException: the exception to throw, if any failure was added. */
    method GetOrThrowException() returns (e: Option<Exception>)
      ensures e.None? <==> failures == []
      ensures e.Some? ==> e.value == ValidationFailed(failures)
    {
      e := if failures == [] then None else Some(ValidationFailed(failures));
    }
  }

  lemma ConcatFive<T>(z: seq<T>, u: seq<T>, t: seq<T>, h: seq<T>, m: seq<T>, r: seq<T>)
    ensures z + u + t + h + m + r == z + (u + t + h + (m + r))
    ensures z + u + t + h == z + (u + t + h + [])
  {
  }

  /** The loop over the header lines: one failure per line that fails the check. */
  method CheckHeaderLines(chunks: seq<string>, collector: FailureCollector)
    modifies collector
    ensures collector.failures == old(collector.failures) + HeaderChunkFailures(chunks)
  {
    for i := 0 to |chunks|
      invariant collector.failures == old(collector.failures) + HeaderChunkFailures(chunks[..i])
    {
      var keyValue := Split(chunks[i], KvDelimiter);
      if |keyValue| != 2 {
        collector.AddFailure(UnparseableHeader(chunks[i]));
      }
      assert chunks[..i + 1][..i] == chunks[..i];
    }
    assert chunks[..|chunks|] == chunks;
  }

  /** Adds to `collector` one failure per violated rule; returns true when the
      check of a null method throws a NullPointerException, after the URL,
      connect-timeout and header failures were added. */
  method Validate(c: Config, host: Host, collector: FailureCollector) returns (npe: bool)
    modifies collector
    ensures npe == ValidationThrows(c)
    ensures collector.failures == old(collector.failures) + ValidationFailures(c, host)
  {
    ghost var expected := old(collector.failures) + UrlFailures(c, host);
    if !host.UrlParses(c.url) {
      collector.AddFailure(MalformedUrl(c.url));
    }
    assert collector.failures == expected;
    expected := expected + ConnectTimeoutFailures(c, host);
    if !host.IsMacro(ConnectTimeout) && c.connectTimeout.Some? && c.connectTimeout.value < 0 {
      collector.AddFailure(InvalidConnectTimeout(c.connectTimeout.value));
    }
    assert collector.failures == expected;
    expected := expected + RequestHeaderFailures(c, host);
    if !host.IsMacro(RequestHeaders) && !IsNullOrEmpty(c.requestHeaders) {
      CheckHeaderLines(Split(c.requestHeaders.value, Delimiter), collector);
    }
    assert collector.failures == expected;
    if c.httpMethod.None? {
      ConcatFive(old(collector.failures), UrlFailures(c, host), ConnectTimeoutFailures(c, host),
        RequestHeaderFailures(c, host), [], []);
      return true;
    }
    expected := expected + MethodFailures(c.httpMethod.value);
    if !MethodAccepted(c.httpMethod.value) {
      collector.AddFailure(InvalidMethod(c.httpMethod.value));
    }
    assert collector.failures == expected;
    expected := expected + ReadTimeoutFailures(c, host);
    if !host.IsMacro(ReadTimeout) && c.readTimeout.Some? && c.readTimeout.value < 0 {
      collector.AddFailure(InvalidReadTimeout(c.readTimeout.value));
    }
    assert collector.failures == expected;
    ConcatFive(old(collector.failures), UrlFailures(c, host), ConnectTimeoutFailures(c, host),
      RequestHeaderFailures(c, host), MethodFailures(c.httpMethod.value), ReadTimeoutFailures(c, host));
    return false;
  }

  // ---------------------------------------------------------------------
  // convertHeadersToMap
  // ---------------------------------------------------------------------

  /** The line names the header `key`: it has a colon and `key` is what comes
      before the first one. */
  predicate Defines(chunk: string, key: string)
  {
    KvDelimiter in chunk && SplitLimit2(chunk, KvDelimiter)[0] == key
  }

  /** The value a line gives its header: everything after the first colon,
      untrimmed. */
  function ValueOf(chunk: string): string
    requires KvDelimiter in chunk
  {
    SplitLimit2(chunk, KvDelimiter)[1]
  }

  /** The map the loop builds from the lines, one line at a time. */
  function ChunksMap(chunks: seq<string>): map<string, string>
    decreases |chunks|
  {
    if chunks == [] then map[]
    else
      var m := ChunksMap(chunks[..|chunks| - 1]);
      var keyValue := SplitLimit2(chunks[|chunks| - 1], KvDelimiter);
      if |keyValue| == 2 then m[keyValue[0] := keyValue[1]] else m
  }

  /** getRequestHeadersMap: the request-header property as a map. */
  function HeadersMap(headers: Option<string>): map<string, string>
  {
    if IsNullOrEmpty(headers) then map[] else ChunksMap(Split(headers.value, Delimiter))
  }

  /** The index of the last line that names `key`, or -1 when none does. */
  function LastNaming(chunks: seq<string>, key: string): (k: int)
    ensures -1 <= k < |chunks|
    ensures k >= 0 ==> Defines(chunks[k], key)
    ensures forall j :: k < j < |chunks| ==> !Defines(chunks[j], key)
    decreases |chunks|
  {
    if chunks == [] then -1
    else if Defines(chunks[|chunks| - 1], key) then |chunks| - 1
    else LastNaming(chunks[..|chunks| - 1], key)
  }

  /** A header is in the map exactly when some line names it, and its value is
      the one given by the last line that names it; lines without a colon
      are skipped. */
  lemma {:induction false} HeaderLookup(chunks: seq<string>, key: string)
    ensures key in ChunksMap(chunks) <==> LastNaming(chunks, key) >= 0
    ensures key in ChunksMap(chunks) ==> ChunksMap(chunks)[key] == ValueOf(chunks[LastNaming(chunks, key)])
    decreases |chunks|
  {
    if chunks != [] {
      var n := |chunks| - 1;
      var init, last := chunks[..n], chunks[n];
      HeaderLookup(init, key);
      var keyValue := SplitLimit2(last, KvDelimiter);
      if !Defines(last, key) {
        assert key in ChunksMap(chunks) <==> key in ChunksMap(init);
        if key in ChunksMap(init) {
          assert ChunksMap(chunks)[key] == ChunksMap(init)[key];
          assert init[LastNaming(init, key)] == chunks[LastNaming(init, key)];
        }
      }
    }
  }

  /** A null or empty property gives the empty map, and a line without a
      colon adds nothing. */
  lemma HeadersMapSkipsLinesWithoutColon()
    ensures HeadersMap(None) == map[] && HeadersMap(Some("")) == map[]
    ensures HeadersMap(Some("Test")) == map[]
  {
    assert Split("Test", Delimiter) == ["Test"];
    assert ["Test"][..0] == [];
  }

  /** A value is everything after the first colon: it may be empty or hold
      further colons. */
  lemma HeadersMapSplitsAtFirstColon(key: string, value: string)
    requires KvDelimiter !in key && Delimiter !in key && Delimiter !in value
    ensures HeadersMap(Some(key + [KvDelimiter] + value)) == map[key := value]
  {
    var line := key + [KvDelimiter] + value;
    HeaderLineHasNoNewline(key, value);
    assert Split(line, Delimiter) == [line];
    ChunksMapAppend([], key, value);
    assert [] + [line] == [line];
  }

  /** Two lines joined by a newline split back into those two lines. */
  lemma SplitTwoLines(x: string, y: string)
    requires Delimiter !in x && Delimiter !in y && y != []
    ensures Split(x + [Delimiter] + y, Delimiter) == [x, y]
  {
    var s := x + [Delimiter] + y;
    assert s[|x|] == Delimiter;
    PiecesOfDelimited(x, y, Delimiter);
    PiecesOfUndelimited(y, Delimiter);
  }

  /** A line that names a colon-free header sets that header in the map. */
  lemma ChunksMapAppend(init: seq<string>, key: string, value: string)
    requires KvDelimiter !in key
    ensures ChunksMap(init + [key + [KvDelimiter] + value]) == ChunksMap(init)[key := value]
  {
    var chunks := init + [key + [KvDelimiter] + value];
    assert chunks[..|chunks| - 1] == init;
    SplitLimit2At(key, value, KvDelimiter);
  }

  /** A header line built from newline-free parts holds no newline. */
  lemma HeaderLineHasNoNewline(key: string, value: string)
    requires Delimiter !in key && Delimiter !in value
    ensures Delimiter !in key + [KvDelimiter] + value
  {
  }

  /** A later line overrides an earlier one that names the same header. */
  lemma HeadersMapLaterLineWins(key: string, first: string, second: string)
    requires KvDelimiter !in key && Delimiter !in key
    requires Delimiter !in first && Delimiter !in second
    ensures HeadersMap(Some(key + [KvDelimiter] + first + [Delimiter] + key + [KvDelimiter] + second)) ==
      map[key := second]
  {
    var l1, l2 := key + [KvDelimiter] + first, key + [KvDelimiter] + second;
    HeaderLineHasNoNewline(key, first);
    HeaderLineHasNoNewline(key, second);
    var joined := l1 + [Delimiter] + l2;
    assert key + [KvDelimiter] + first + [Delimiter] + key + [KvDelimiter] + second == joined;
    SplitTwoLines(l1, l2);
    ChunksMapAppend([], key, first);
    assert [] + [l1] == [l1];
    ChunksMapAppend([l1], key, second);
    assert [l1] + [l2] == [l1, l2];
  }

  /** A header property that passes validation loses no line in the map:
      every line names a header. */
  lemma ValidatedLinesAllReachTheMap(headers: string)
    requires HeaderChunkFailures(Split(headers, Delimiter)) == []
    ensures forall chunk :: chunk in Split(headers, Delimiter) ==> KvDelimiter in chunk
  {
    var chunks := Split(headers, Delimiter);
    HeaderChunkFailuresAreTheBadChunks(chunks);
    forall chunk | chunk in chunks ensures KvDelimiter in chunk {
      assert WellFormedHeaderChunk(chunk);
    }
  }

  /** convertHeadersToMap: fills a map line by line. */
  method ConvertHeadersToMap(headers: Option<string>) returns (m: map<string, string>)
    ensures m == HeadersMap(headers)
  {
    m := map[];
    if !IsNullOrEmpty(headers) {
      var chunks := Split(headers.value, Delimiter);
      for i := 0 to |chunks|
        invariant m == ChunksMap(chunks[..i])
      {
        var keyValue := SplitLimit2(chunks[i], KvDelimiter);
        if |keyValue| == 2 {
          m := m[keyValue[0] := keyValue[1]];
        }
        assert chunks[..i + 1][..i] == chunks[..i];
      }
      assert chunks[..|chunks|] == chunks;
    }
  }

  // ---------------------------------------------------------------------
  // Builder
  // ---------------------------------------------------------------------

  /** HTTPToHDFSActionConfig.Builder: one field per property; each setter
      changes its own field and returns the builder itself. */
  class Builder {
    var hdfsFilePath: Option<string>
    var url: Option<string>
    var httpMethod: Option<string>
    var body: Option<string>
    var requestHeaders: Option<string>
    var outputFormat: Option<string>
    var charset: Option<string>
    var followRedirects: Option<bool>
    var disableSSLValidation: Option<bool>
    var numRetries: Option<int>
    var connectTimeout: Option<int>
    var readTimeout: Option<int>
    var outputPath: Option<string>
    var responseHeaders: Option<string>

    /** builder(): every field null. */
    constructor ()
      ensures Build() == Config(None, None, None, None, None, None, None, None, None, None, None, None, None, None)
    {
      hdfsFilePath, url, httpMethod, body, requestHeaders := None, None, None, None, None;
      outputFormat, charset, followRedirects, disableSSLValidation := None, None, None, None;
      numRetries, connectTimeout, readTimeout, outputPath, responseHeaders := None, None, None, None, None;
    }

    /** build(): a configuration holding the builder's fields. */
    function Build(): Config
      reads this
    {
      Config(hdfsFilePath, url, httpMethod, body, requestHeaders, outputFormat, charset,
             followRedirects, disableSSLValidation, numRetries, connectTimeout, readTimeout,
             outputPath, responseHeaders)
    }

    method SetHdfsFilePath(v: Option<string>) returns (self: Builder)
      modifies this
      ensures self == this && Build() == old(Build()).(hdfsFilePath := v)
    {
      hdfsFilePath := v;
      self := this;
    }

    method SetUrl(v: Option<string>) returns (self: Builder)
      modifies this
      ensures self == this && Build() == old(Build()).(url := v)
    {
      url := v;
      self := this;
    }

    method SetMethod(v: Option<string>) returns (self: Builder)
      modifies this
      ensures self == this && Build() == old(Build()).(httpMethod := v)
    {
      httpMethod := v;
      self := this;
    }

    method SetBody(v: Option<string>) returns (self: Builder)
      modifies this
      ensures self == this && Build() == old(Build()).(body := v)
    {
      body := v;
      self := this;
    }

    method SetRequestHeaders(v: Option<string>) returns (self: Builder)
      modifies this
      ensures self == this && Build() == old(Build()).(requestHeaders := v)
    {
      requestHeaders := v;
      self := this;
    }

    method SetOutputFormat(v: Option<string>) returns (self: Builder)
      modifies this
      ensures self == this && Build() == old(Build()).(outputFormat := v)
    {
      outputFormat := v;
      self := this;
    }

    method SetCharset(v: Option<string>) returns (self: Builder)
      modifies this
      ensures self == this && Build() == old(Build()).(charset := v)
    {
      charset := v;
      self := this;
    }

    method SetFollowRedirects(v: Option<bool>) returns (self: Builder)
      modifies this
      ensures self == this && Build() == old(Build()).(followRedirects := v)
    {
      followRedirects := v;
      self := this;
    }

    method SetDisableSSLValidation(v: Option<bool>) returns (self: Builder)
      modifies this
      ensures self == this && Build() == old(Build()).(disableSSLValidation := v)
    {
      disableSSLValidation := v;
      self := this;
    }

    method SetNumRetries(v: Option<int>) returns (self: Builder)
      modifies this
      ensures self == this && Build() == old(Build()).(numRetries := v)
    {
      numRetries := v;
      self := this;
    }

    method SetConnectTimeout(v: Option<int>) returns (self: Builder)
      modifies this
      ensures self == this && Build() == old(Build()).(connectTimeout := v)
    {
      connectTimeout := v;
      self := this;
    }

    method SetReadTimeout(v: Option<int>) returns (self: Builder)
      modifies this
      ensures self == this && Build() == old(Build()).(readTimeout := v)
    {
      readTimeout := v;
      self := this;
    }

    method SetOutputPath(v: Option<string>) returns (self: Builder)
      modifies this
      ensures self == this && Build() == old(Build()).(outputPath := v)
    {
      outputPath := v;
      self := this;
    }

    method SetResponseHeaders(v: Option<string>) returns (self: Builder)
      modifies this
      ensures self == this && Build() == old(Build()).(responseHeaders := v)
    {
      responseHeaders := v;
      self := this;
    }
  }

  /** builder(copy): a fresh builder holding every property of `copy`. */
  method BuilderOf(copy: Config) returns (b: Builder)
    ensures fresh(b) && b.Build() == copy
  {
    b := new Builder();
    b := b.SetHdfsFilePath(copy.hdfsFilePath);
    b := b.SetUrl(copy.url);
    b := b.SetRequestHeaders(copy.requestHeaders);
    b := b.SetOutputFormat(copy.outputFormat);
    b := b.SetCharset(copy.charset);
    b := b.SetMethod(copy.httpMethod);
    b := b.SetBody(copy.body);
    b := b.SetNumRetries(copy.numRetries);
    b := b.SetReadTimeout(copy.readTimeout);
    b := b.SetConnectTimeout(copy.connectTimeout);
    b := b.SetFollowRedirects(copy.followRedirects);
    b := b.SetDisableSSLValidation(copy.disableSSLValidation);
    b := b.SetOutputPath(copy.outputPath);
    b := b.SetResponseHeaders(copy.responseHeaders);
  }

  /** `builder(c).build()` reproduces `c`. */
  method Copy(c: Config) returns (d: Config)
    ensures d == c
  {
    var b := BuilderOf(c);
    d := b.Build();
  }

  /** `builder(c).setMethod(m).build()`, as the tests derive a broken
      configuration from a valid one: only the method differs. */
  method CopyWithMethod(c: Config, m: Option<string>) returns (d: Config)
    ensures d == c.(httpMethod := m)
  {
    var b := BuilderOf(c);
    b := b.SetMethod(m);
    d := b.Build();
  }
}
