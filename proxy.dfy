/** `ProxyHandler.do_POST`: build the outbound request from the device's request, send
    it to the backend, rewrite the body of the MQTT route answer, and emit the reply.
    The network call is a parameter: `send` maps the built request to the backend's
    answer or to the failure it raised. */
module Proxy {
  import opened Headers
  import opened Rewrite

  /** `TARGET_HOST` (the backend the request is sent to) and `MQTT_HOST` (the address
      written into the route answer), resolved once at start-up. */
  datatype Config = Config(targetHost: string, mqttHost: string)

  /** The device's request: its request target as sent, its headers in order
      (duplicates possible), and its body. */
  datatype InboundRequest = InboundRequest(path: string, headers: seq<Header>, body: Bytes)

  datatype OutboundRequest = OutboundRequest(url: string, headers: seq<Header>, body: Bytes)

  /** The backend's answer as the HTTP client hands it over. */
  datatype UpstreamResponse = UpstreamResponse(status: int, headers: seq<Header>, body: Bytes)

  /** What sending the request produced: an answer, or the exception the client raised. */
  datatype SendOutcome = Received(response: UpstreamResponse) | SendFailed(reason: string)

  /** The exception that ended the request inside the `try`. */
  datatype Failure =
    | UpstreamFailure(reason: string)
    | RewriteFailure(error: RewriteError)
    | LogFailure
    | HeaderEncodeFailure

  /** What the device gets back: the forwarded answer, or the `500 Proxy error` reply. */
  datatype Reply =
    | Forwarded(status: int, headers: seq<Header>, body: Bytes)
    | ProxyError(status: int, failure: Failure)

  /** The body sent to the device: rewritten for the route path, untouched otherwise. */
  function ContentToSend(cfg: Config, codec: JsonCodec, path: string, upstreamBody: Bytes): (r: Result<Bytes, RewriteError>)
    ensures path != RoutePath ==> r == Ok(upstreamBody)
    ensures path == RoutePath ==> r == ModifyResponse(codec, cfg.mqttHost, upstreamBody)
  {
    if path == RoutePath then ModifyResponse(codec, cfg.mqttHost, upstreamBody) else Ok(upstreamBody)
  }

  /** `log_response_details` on the body to send raises: the body is non-empty and its
      `json.loads` raises an exception other than `UnicodeDecodeError` and
      `JSONDecodeError`, the two it catches. */
  predicate ResponseLogRaises(codec: JsonCodec, body: Bytes)
  {
    |body| > 0 && codec.load(body) == LoadRaised
  }

  method DoPost(cfg: Config, codec: JsonCodec, send: OutboundRequest -> SendOutcome, request: InboundRequest)
    returns (outbound: OutboundRequest, reply: Reply)
    // the request sent to the backend
    ensures outbound.url == "http://" + cfg.targetHost + request.path
    ensures outbound.body == request.body
    ensures outbound.headers == OutboundHeaders(request.headers)
    // the reply to the device
    ensures send(outbound).SendFailed? ==>
      reply == ProxyError(500, UpstreamFailure(send(outbound).reason))
    ensures send(outbound).Received? ==>
      var content := ContentToSend(cfg, codec, request.path, send(outbound).response.body);
      content.Err? ==> reply == ProxyError(500, RewriteFailure(content.error))
    ensures send(outbound).Received? ==>
      var content := ContentToSend(cfg, codec, request.path, send(outbound).response.body);
      content.Ok? && ResponseLogRaises(codec, content.value) ==> reply == ProxyError(500, LogFailure)
    ensures send(outbound).Received? ==>
      var response := send(outbound).response;
      var content := ContentToSend(cfg, codec, request.path, response.body);
      content.Ok? && !ResponseLogRaises(codec, content.value)
      && !Latin1Headers(EmittedHeaders(response.headers, |content.value|)) ==>
        reply == ProxyError(500, HeaderEncodeFailure)
    ensures send(outbound).Received? ==>
      var response := send(outbound).response;
      var content := ContentToSend(cfg, codec, request.path, response.body);
      content.Ok? && !ResponseLogRaises(codec, content.value)
      && Latin1Headers(EmittedHeaders(response.headers, |content.value|)) ==>
        reply == Forwarded(response.status,
                           EmittedHeaders(response.headers, |content.value|),
                           content.value)
    // any other path: the backend's status and body, unless the logging or a header raises
    ensures send(outbound).Received? && request.path != RoutePath ==>
      var response := send(outbound).response;
      !ResponseLogRaises(codec, response.body)
      && Latin1Headers(EmittedHeaders(response.headers, |response.body|)) ==>
        reply == Forwarded(response.status, EmittedHeaders(response.headers, |response.body|), response.body)
  {
    var copied := CopyInbound(request.headers);
    var headers := DropUserAgent(copied);
    var targetUrl := "http://" + cfg.targetHost + request.path;
    headers := PopUnwanted(headers);
    outbound := OutboundRequest(targetUrl, headers, request.body);

    match send(outbound)
    case SendFailed(reason) =>
      reply := ProxyError(500, UpstreamFailure(reason));
    case Received(response) =>
      var content := ContentToSend(cfg, codec, request.path, response.body);
      match content
      case Err(error) =>
        reply := ProxyError(500, RewriteFailure(error));
      case Ok(body) =>
        if ResponseLogRaises(codec, body) {
          reply := ProxyError(500, LogFailure);
        } else {
          var sent := EmitHeaders(response.headers, |body|);
          if Latin1Headers(sent) {
            reply := Forwarded(response.status, sent, body);
          } else {
            reply := ProxyError(500, HeaderEncodeFailure);
          }
        }
  }
}
