/** The configuration of the HTTP-to-HDFS action, shared by the current
    plugin (io.cdap) and the legacy one (co.cask): both declare the same
    fourteen properties with the same defaults. Every property is a Java
    reference, so every one of them may be null. */
module PluginConfig {
  import opened JavaLang

  /** The properties that validation names in its failures and that may be
      left as unresolved macros by the host. */
  datatype Field = Url | Method | RequestHeaders | NumRetries | ConnectTimeout | ReadTimeout
  {
    /** The property name the plugin declares for this field. */
    function Name(): string
    {
      match this
      case Url => "url"
      case Method => "method"
      case RequestHeaders => "requestHeaders"
      case NumRetries => "numRetries"
      case ConnectTimeout => "connectTimeout"
      case ReadTimeout => "readTimeout"
    }

    /** Position of the field's check in the validator's fixed order. */
    function Rank(): nat
    {
      match this
      case Url => 0
      case ConnectTimeout => 1
      case RequestHeaders => 2
      case Method => 3
      case NumRetries => 4
      case ReadTimeout => 5
    }
  }

  /** The plugin's properties. Integers hold Java `Integer` values. */
  datatype Config = Config(
    hdfsFilePath: Option<string>,
    url: Option<string>,
    httpMethod: Option<string>,
    body: Option<string>,
    requestHeaders: Option<string>,
    outputFormat: Option<string>,
    charset: Option<string>,
    followRedirects: Option<bool>,
    disableSSLValidation: Option<bool>,
    numRetries: Option<int>,
    connectTimeout: Option<int>,
    readTimeout: Option<int>,
    outputPath: Option<string>,
    responseHeaders: Option<string>)

  /** The no-argument constructor: documented defaults, everything else null. */
  function Default(): Config
  {
    Config(
      hdfsFilePath := None,
      url := None,
      httpMethod := Some("GET"),
      body := None,
      requestHeaders := None,
      outputFormat := Some("Text"),
      charset := Some("UTF-8"),
      followRedirects := Some(true),
      disableSSLValidation := Some(true),
      numRetries := Some(3),
      connectTimeout := Some(60 * 1000),
      readTimeout := Some(60 * 1000),
      outputPath := Some("filePath"),
      responseHeaders := Some("responseHeaders"))
  }

  /** What the plugin learns from its host: which properties are still macros,
      and whether `new java.net.URL(s)` accepts a string (the URL grammar is
      not modelled). */
  datatype Host = Host(macros: set<Field>, wellFormedUrl: string -> bool)
  {
    predicate IsMacro(f: Field)
    {
      f in macros
    }

    /** `new URL(url)` succeeds; a null url makes it throw. */
    predicate UrlParses(url: Option<string>)
    {
      url.Some? && wellFormedUrl(url.value)
    }
  }

  /** A violated rule, with the value the failure message reports. */
  datatype Failure =
    | MalformedUrl(url: Option<string>)
    | InvalidConnectTimeout(timeout: int)
    | UnparseableHeader(chunk: string)
    | InvalidMethod(httpMethod: string)
    | InvalidNumRetries(retries: int)
    | InvalidReadTimeout(timeout: int)
  {
    /** The property the failure is tagged with. */
    function Property(): Field
    {
      match this
      case MalformedUrl(_) => Url
      case InvalidConnectTimeout(_) => ConnectTimeout
      case UnparseableHeader(_) => RequestHeaders
      case InvalidMethod(_) => Method
      case InvalidNumRetries(_) => NumRetries
      case InvalidReadTimeout(_) => ReadTimeout
    }
  }

  /** What a run of the action can end by throwing. */
  datatype Exception =
      /** Whatever one attempt threw and the retry loop caught (an I/O error,
          a timeout, ...), identified by the environment. */
    | AttemptError(id: nat)
      /** A null property unboxed or dereferenced. */
    | NullPointer
      /** A MalformedURLException or ProtocolException, wrapped. */
    | IllegalState(cause: nat)
      /** FailureCollector.getOrThrowException with the collected failures. */
    | ValidationFailed(failures: seq<Failure>)
      /** The legacy validator's first violated rule. */
    | IllegalArgument(failure: Failure)
      /** Hadoop's Path constructor rejecting a null file path. */
    | NullPathArgument
      /** The text reader rejecting the configured charset name. */
    | UnsupportedCharset(charset: string)

  /** The HTTP methods the plugin accepts. */
  const Methods: set<string> := {"GET", "POST"}

  /** The method check: upper-cased, the method is GET or POST. */
  predicate MethodAccepted(m: string)
  {
    ToUpperCase(m) in Methods
  }

  /** The method check is case-insensitive membership in {GET, POST}. */
  lemma MethodAcceptedIgnoringCase(m: string)
    ensures MethodAccepted(m) <==> EqualsIgnoreCase(m, "GET") || EqualsIgnoreCase(m, "POST")
  {
    UpperCaseMatches(m, "GET");
    UpperCaseMatches(m, "POST");
  }
}
