/** The conversion request: pick the subscription text, split it into links,
    convert them, render the document and make the download link. The fetch
    of a remote subscription is a parameter (the text it returned), and so are
    the clock, `JSON.parse`, `JSON.stringify` and the message of the
    exception `btoa` throws. The link encoder is a parameter too, so that the
    handler can be read with the encoding as written and with the corrected
    one. */
module Pipeline {
  import opened Wrappers
  import opened Text
  import opened JsValue
  import opened Decoders
  import opened Subscription
  import opened Convert
  import opened Yaml
  import opened Download

  /** The fields of the request body and what the environment supplies. */
  datatype Request = Request(
    subscriptionUrl: string,  // the `subscriptionUrl` field
    configName: Value,        // the `configName` field
    fetched: string,          // the text of the fetched subscription
    origin: string,           // `url.origin`
    timestamp: string)        // `new Date().toISOString()`

  /** What the handler answers: a 400 for a missing input, a 500 carrying the
      message of an exception, or the converted configuration. */
  datatype Reply =
    | BadRequest(error: string)
    | ServerError(error: string)
    | Converted(config: Config, yaml: string, subscriptionLink: string)

  const MissingInput: string := "请提供订阅链接或代理链接"

  function ConvertError(message: string): string
  {
    "转换失败: " + message
  }

  /** An http(s) address is fetched; anything else is the subscription text itself. */
  function SubscriptionData(request: Request): string
  {
    var input := request.subscriptionUrl;
    if StartsWith(input, "http://") || StartsWith(input, "https://") then request.fetched else input
  }

  /** The records the request's links yield. */
  function RequestProxies(request: Request, parse: string -> Option<Value>): seq<Proxy>
  {
    AcceptedProxies(Servers(SubscriptionData(request)), parse)
  }

  /** The configuration and document of a request whose links yield records. */
  function RequestConfig(request: Request, parse: string -> Option<Value>): Config
  {
    ConfigOf(ConfigName(request.configName), RequestProxies(request, parse))
  }

  function RequestYaml(request: Request, parse: string -> Option<Value>, stringify: Value -> string): string
  {
    GenerateClashYaml(RequestConfig(request, parse), request.timestamp, stringify)
  }

  /** The reply, with `encode` standing for the expression that turns the
      document into the id of its link (`None` when it throws). */
  function ConvertReply(request: Request, parse: string -> Option<Value>, stringify: Value -> string,
                        encode: string -> Option<string>, encodeError: string): Reply
  {
    if request.subscriptionUrl == "" then BadRequest(MissingInput)
    else if RequestProxies(request, parse) == [] then ServerError(ConvertError(NoProxiesError))
    else
      var yaml := RequestYaml(request, parse, stringify);
      match encode(yaml)
      case None => ServerError(ConvertError(encodeError))
      case Some(id) => Converted(RequestConfig(request, parse), yaml, request.origin + Route + id)
  }

  /** The handler, step by step. */
  method HandleConvert(request: Request, parse: string -> Option<Value>, stringify: Value -> string,
                       encode: string -> Option<string>, encodeError: string)
    returns (reply: Reply)
    ensures reply == ConvertReply(request, parse, stringify, encode, encodeError)
  {
    if request.subscriptionUrl == "" {
      return BadRequest(MissingInput);
    }
    var subscriptionData := request.subscriptionUrl;
    if StartsWith(request.subscriptionUrl, "http://") || StartsWith(request.subscriptionUrl, "https://") {
      subscriptionData := request.fetched;
    }
    var servers := SplitBody(subscriptionData);
    var clashConfig := ConvertToClash(servers, ConfigName(request.configName), parse);
    if clashConfig.Failure? {
      return ServerError(ConvertError(clashConfig.error));
    }
    var yamlContent := GenerateClashYaml(clashConfig.value, request.timestamp, stringify);
    var encodedConfig := encode(yamlContent);
    if encodedConfig.None? {
      return ServerError(ConvertError(encodeError));
    }
    reply := Converted(clashConfig.value, yamlContent, request.origin + Route + encodedConfig.value);
  }

  /** With `encodeURIComponent(btoa(yaml))` as written the handler never
      answers with a configuration: an empty input is a 400, and any other
      request is a 500, because no record was accepted or because `btoa`
      threw on the document. */
  lemma AsWrittenNeverConverts(request: Request, parse: string -> Option<Value>,
                               stringify: Value -> string, btoaError: string)
    ensures var reply := ConvertReply(request, parse, stringify, EncodeConfig, btoaError);
      && !reply.Converted?
      && (request.subscriptionUrl != "" && RequestProxies(request, parse) != []
          ==> reply == ServerError(ConvertError(btoaError)))
  {
    if request.subscriptionUrl != "" && RequestProxies(request, parse) != [] {
      EncodeGeneratedFails(RequestConfig(request, parse), request.timestamp, stringify);
    }
  }

  /** The corrected link encoder: it never throws. */
  function EncodeUtf8(yaml: string): Option<string>
  {
    Some(EncodeUtf8Config(yaml))
  }

  /** With the corrected encoder, a request with an input is converted
      exactly when some record is accepted; the reply carries the
      configuration built from the accepted records and its document, and
      the link it returns downloads that document. */
  lemma CorrectedConverts(request: Request, parse: string -> Option<Value>,
                          stringify: Value -> string, btoaError: string)
    requires request.subscriptionUrl != ""
    ensures var reply := ConvertReply(request, parse, stringify, EncodeUtf8, btoaError);
      && (reply.Converted? <==> RequestProxies(request, parse) != [])
      && (!reply.Converted? ==> reply == ServerError(ConvertError(NoProxiesError)))
      && (reply.Converted? ==>
            && reply.config == RequestConfig(request, parse)
            && reply.config.proxies == RequestProxies(request, parse)
            && reply.yaml == GenerateClashYaml(reply.config, request.timestamp, stringify)
            && reply.subscriptionLink == request.origin + Route + EncodeUtf8Config(reply.yaml)
            && DownloadResponse(Route + EncodeUtf8Config(reply.yaml), DecodeUtf8Config) == Success(reply.yaml))
  {
    if RequestProxies(request, parse) != [] {
      DownloadOfGenerated(RequestConfig(request, parse), request.timestamp, stringify);
    }
  }
}
