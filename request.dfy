/**
 * The request `make_rpc_request` (suinfra_cli/commands/rpc.py) posts to an endpoint: a header
 * dictionary built from two defaults and the endpoint's optional auth header, and a fixed
 * JSON-RPC 2.0 body asking for the reference gas price.
 */
module Request {
  import opened Wrappers
  import opened Models

  /** The HTTP POST handed to the client: target URL, headers and JSON body. */
  datatype Post = Post(url: string, headers: map<string, string>, body: Json)

  /** The headers every request starts from. */
  const DefaultHeaders: map<string, string> := map["Content-Type" := "application/json", "User-Agent" := "suinfra"]

  /** A JSON-RPC 2.0 call of `method` with no parameters, tagged with `nonce`. */
  function GasPriceCall(nonce: int): Json {
    JObject(map[
      "jsonrpc" := JString("2.0"),
      "id" := JNumber(nonce as real),
      "method" := JString("suix_getReferenceGasPrice"),
      "params" := JArray([])])
  }

  /**
   * What a JSON-RPC server reads back from a request body: the method name and the integer id,
   * provided the body is a version 2.0 call with an empty parameter list.
   */
  function ReadCall(body: Json): (r: Option<(string, int)>)
    ensures r.Some? ==> body.JObject? && "jsonrpc" in body.fields && body.fields["jsonrpc"] == JString("2.0")
    ensures r.Some? ==> "params" in body.fields && body.fields["params"] == JArray([])
  {
    match body
    case JObject(f) =>
      if && "jsonrpc" in f && f["jsonrpc"] == JString("2.0")
         && "params" in f && f["params"] == JArray([])
         && "method" in f && f["method"].JString?
         && "id" in f && f["id"].JNumber? && f["id"].n == f["id"].n.Floor as real
      then Some((f["method"].s, f["id"].n.Floor))
      else None
    case _ => None
  }

  /** The body asks for `suix_getReferenceGasPrice` and carries the nonce as its id. */
  lemma ReadGasPriceCall(nonce: int)
    ensures ReadCall(GasPriceCall(nonce)) == Some(("suix_getReferenceGasPrice", nonce))
  {
    assert (nonce as real).Floor == nonce;
  }

  /** A header map before and after the auth header is applied. */
  method Headers(auth: Option<AuthHeader>) returns (headers: map<string, string>)
    ensures auth.Some? ==> headers.Keys == DefaultHeaders.Keys + {auth.value.key}
    ensures auth.None? ==> headers == DefaultHeaders
    ensures auth.Some? ==> headers[auth.value.key] == auth.value.value
    ensures forall k :: k in DefaultHeaders && (auth.None? || k != auth.value.key) ==> headers[k] == DefaultHeaders[k]
  {
    headers := DefaultHeaders;
    if auth.Some? {
      headers := headers[auth.value.key := auth.value.value];
    }
  }

  /** The request `make_rpc_request` sends: posted to the endpoint's `rpc_url`. */
  method MakeRpcRequest(endpoint: RpcEndpoint, nonce: int) returns (post: Post)
    ensures post.url == endpoint.rpcUrl
    ensures post.body == GasPriceCall(nonce)
    ensures endpoint.authHeader.Some? ==>
              && post.headers.Keys == DefaultHeaders.Keys + {endpoint.authHeader.value.key}
              && post.headers[endpoint.authHeader.value.key] == endpoint.authHeader.value.value
    ensures endpoint.authHeader.None? ==> post.headers == DefaultHeaders
    ensures forall k :: k in DefaultHeaders && (endpoint.authHeader.None? || k != endpoint.authHeader.value.key) ==>
              post.headers[k] == DefaultHeaders[k]
  {
    var headers := Headers(endpoint.authHeader);
    post := Post(endpoint.rpcUrl, headers, GasPriceCall(nonce));
  }
}
