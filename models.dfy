/**
 * The record shapes of suinfra_cli/models.py, and the conversion of the fetched
 * JSON endpoint list into endpoint records (suinfra_cli/utils.py, fetch_rpc_endpoints).
 */
module Models {
  import opened Wrappers

  /** A 128-bit UUID, taken as its integer value. */
  type Uuid = x: nat | x < 0x1_0000_0000_0000_0000_0000_0000_0000_0000

  /** `RpcEndpoingAuthHeader`: one extra HTTP header sent to an endpoint. */
  datatype AuthHeader = AuthHeader(key: string, value: string)

  /** `RpcEndpoint`: `provider_url` and `auth_header` default to None. */
  datatype RpcEndpoint = RpcEndpoint(
    name: string,
    providerUrl: Option<string>,
    rpcUrl: string,
    authHeader: Option<AuthHeader>)

  /** `TxResult`: declared alongside, not used by the ping commands. */
  datatype TxResult = TxResult(
    digest: string,
    avgLatency: int,
    p10Latency: int,
    p50Latency: int,
    p90Latency: int,
    stDev: int,
    fromRegion: string)

  /** `RpcPingResult`: the statistics of one endpoint from one region, in milliseconds. */
  datatype RpcPingResult = RpcPingResult(
    rpcName: string,
    rpcUrl: string,
    avgLatency: int,
    p10Latency: int,
    p50Latency: int,
    p90Latency: int,
    stDev: int,
    fromRegion: string)

  /** `Db_RpcPingTest`: a stored test run. */
  datatype DbRpcPingTest = DbRpcPingTest(id: Uuid, timestamp: int)

  /** `Db_RpcPingResult`: a stored ping result, attached to a test run by `testId`. */
  datatype DbRpcPingResult = DbRpcPingResult(
    id: string,
    rpcName: string,
    rpcUrl: string,
    avgLatency: int,
    p10Latency: int,
    p50Latency: int,
    p90Latency: int,
    stDev: int,
    fromRegion: string,
    testId: Uuid)

  /** A decoded JSON document, as `r.json()` hands it to the conversion. */
  datatype Json =
    | JNull
    | JBool(b: bool)
    | JNumber(n: real)
    | JString(s: string)
    | JArray(items: seq<Json>)
    | JObject(fields: map<string, Json>)

  /** A required string field: present and a JSON string. */
  predicate HasString(fields: map<string, Json>, key: string) {
    key in fields && fields[key].JString?
  }

  /** An optional string field: absent, null, or a string (absent and null both give None). */
  function OptionalString(fields: map<string, Json>, key: string): (r: Option<Option<string>>)
    ensures r == Some(None) <==> key !in fields || fields[key] == JNull
    ensures (exists s :: r == Some(Some(s))) <==> HasString(fields, key)
    ensures HasString(fields, key) ==> r == Some(Some(fields[key].s))
  {
    if key !in fields then Some(None)
    else match fields[key]
      case JNull => Some(None)
      case JString(s) => Some(Some(s))
      case _ => None
  }

  /** Validation of an `RpcEndpoingAuthHeader` from a JSON value: an object with string `key` and `value`. */
  function ParseAuthHeader(j: Json): (r: Option<AuthHeader>)
    ensures r.Some? <==> j.JObject? && HasString(j.fields, "key") && HasString(j.fields, "value")
    ensures r.Some? ==> r.value == AuthHeader(j.fields["key"].s, j.fields["value"].s)
  {
    match j
    case JObject(f) =>
      if HasString(f, "key") && HasString(f, "value") then Some(AuthHeader(f["key"].s, f["value"].s))
      else None
    case _ => None
  }

  /** The optional `auth_header` field: absent or null give None, anything else must validate. */
  function OptionalAuthHeader(fields: map<string, Json>): (r: Option<Option<AuthHeader>>)
    ensures r == Some(None) <==> "auth_header" !in fields || fields["auth_header"] == JNull
    ensures (exists h :: r == Some(Some(h))) <==> "auth_header" in fields && ParseAuthHeader(fields["auth_header"]).Some?
    ensures "auth_header" in fields && ParseAuthHeader(fields["auth_header"]).Some? ==>
              r == Some(ParseAuthHeader(fields["auth_header"]))
  {
    if "auth_header" !in fields || fields["auth_header"] == JNull then Some(None)
    else match ParseAuthHeader(fields["auth_header"])
      case Some(h) => Some(Some(h))
      case None => None
  }

  /**
   * `RpcEndpoint(**rpc)`: the element must be an object holding string `name` and `rpc_url`;
   * `provider_url` and `auth_header` may be absent or null (None); unknown keys are ignored.
   */
  function ParseEndpoint(j: Json): (r: Option<RpcEndpoint>)
    ensures r.Some? <==>
              && j.JObject?
              && HasString(j.fields, "name")
              && HasString(j.fields, "rpc_url")
              && OptionalString(j.fields, "provider_url").Some?
              && OptionalAuthHeader(j.fields).Some?
    ensures r.Some? ==>
              && r.value.name == j.fields["name"].s
              && r.value.rpcUrl == j.fields["rpc_url"].s
              && ("provider_url" !in j.fields || j.fields["provider_url"] == JNull ==> r.value.providerUrl == None)
              && ("auth_header" !in j.fields || j.fields["auth_header"] == JNull ==> r.value.authHeader == None)
              && (HasString(j.fields, "provider_url") ==> r.value.providerUrl == Some(j.fields["provider_url"].s))
              && ("auth_header" in j.fields && ParseAuthHeader(j.fields["auth_header"]).Some? ==>
                    r.value.authHeader == ParseAuthHeader(j.fields["auth_header"]))
  {
    match j
    case JObject(f) =>
      if HasString(f, "name") && HasString(f, "rpc_url") then
        match (OptionalString(f, "provider_url"), OptionalAuthHeader(f))
        case (Some(provider), Some(auth)) => Some(RpcEndpoint(f["name"].s, provider, f["rpc_url"].s, auth))
        case _ => None
      else None
    case _ => None
  }

  /** The list comprehension over the elements of a JSON array: all of them validate, or the whole conversion fails. */
  function ParseEndpoints(items: seq<Json>): (r: Option<seq<RpcEndpoint>>)
    ensures r.Some? <==> forall i :: 0 <= i < |items| ==> ParseEndpoint(items[i]).Some?
    ensures r.Some? ==> |r.value| == |items|
    ensures r.Some? ==> forall i :: 0 <= i < |items| ==> Some(r.value[i]) == ParseEndpoint(items[i])
  {
    if items == [] then Some([])
    else match (ParseEndpoint(items[0]), ParseEndpoints(items[1..]))
      case (Some(e), Some(rest)) =>
        assert forall i :: 1 <= i < |items| ==> items[i] == items[1..][i - 1];
        Some([e] + rest)
      case (None, _) => None
      case (_, None) =>
        assert forall i :: 0 <= i < |items| - 1 ==> items[1..][i] == items[i + 1];
        None
  }

  /**
   * `[RpcEndpoint(**rpc) for rpc in r.json()]`. Iterating an object yields its keys and
   * iterating a string its characters; neither is a mapping, so only an empty object or
   * an empty string gets through (as an empty list). Numbers, booleans and null are not iterable.
   */
  function FetchedEndpoints(doc: Json): (r: Option<seq<RpcEndpoint>>)
    ensures !doc.JArray? ==> (r.Some? <==> doc == JObject(map[]) || doc == JString(""))
    ensures !doc.JArray? && r.Some? ==> r.value == []
    ensures doc.JArray? ==> r == ParseEndpoints(doc.items)
  {
    match doc
    case JArray(items) => ParseEndpoints(items)
    case JObject(f) => if f == map[] then Some([]) else None
    case JString(s) => if s == "" then Some([]) else None
    case _ => None
  }
}
