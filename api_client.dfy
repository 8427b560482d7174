/**
 * Request composition of `createApiClient` (api-client.js) and of the
 * stand-alone `fetchJson` in app.js: base-URL normalisation, the
 * configuration check, the request URL and headers, and the status check
 * on the response. The network call itself is not part of the model.
 */
module ApiClient {
  import opened Wrappers
  import opened JsText
  import FormUrlEncoded
  import QP = QueryParams

  /** `value || ""` for a configuration value that may be missing. */
  function OrEmpty(value: Option<string>): string {
    value.GetOr("")
  }

  /** `value.replace(/\/$/, "")`: without the `m` flag `$` is the end of input, so at most one `/` goes. */
  function StripTrailingSlash(s: string): (r: string)
    ensures r <= s && |s| - |r| <= 1
    ensures r != s <==> (|s| > 0 && s[|s| - 1] == '/')
    ensures r != s ==> r + "/" == s
  {
    if |s| > 0 && s[|s| - 1] == '/' then
      assert s == s[..|s| - 1] + [s[|s| - 1]];
      s[..|s| - 1]
    else s
  }

  /** The request URL: base, path, then `?` and the query only when the query is not empty. */
  function RequestUrl(base: string, path: string, params: QP.Params): (url: string)
    ensures url == base + path <==> QP.SearchParams(params) == []
    ensures QP.SearchParams(params) != [] ==> url == base + path + "?" + QP.QueryString(params)
  {
    FormUrlEncoded.SerializeEmptyIff(QP.SearchParams(params));
    var query := QP.QueryString(params);
    if query != "" then base + path + "?" + query else base + path
  }

  /** What a server makes of a request URL: the part before the first `?`, and the parsed query. */
  function ReadTarget(url: string): (string, Option<QP.Pairs>) {
    if '?' in url then
      var i := FormUrlEncoded.IndexOfChar(url, '?');
      (url[..i], FormUrlEncoded.Parse(url[i + 1..]))
    else (url, Some([]))
  }

  /**
   * A request URL is read back as the endpoint and exactly the parameters'
   * pairs in key order, when the endpoint itself holds no `?`.
   */
  lemma RequestUrlReadsBack(base: string, path: string, params: QP.Params)
    requires '?' !in base + path
    requires QP.KeysUnique(params)
    ensures ReadTarget(RequestUrl(base, path, params)) == (base + path, Some(QP.Contributions(params)))
  {
    var endpoint := base + path;
    var url := RequestUrl(base, path, params);
    QP.UniqueKeysSetIsAppend(params);
    if QP.SearchParams(params) != [] {
      var query := QP.QueryString(params);
      assert url[|endpoint|] == '?';
      var i := FormUrlEncoded.IndexOfChar(url, '?');
      assert url[..|endpoint|] == endpoint;
      assert i == |endpoint|;
      assert url[i + 1..] == query;
      FormUrlEncoded.SerializeRoundTrip(QP.SearchParams(params));
    }
  }

  // ---------------------------------------------------------------------
  // createApiClient (api-client.js)

  /** The client `createApiClient({ apiUrl, apiKey })` returns: its normalised URL and key. */
  datatype Client = Client(baseUrl: string, apiKey: string)

  function CreateApiClient(apiUrl: Option<string>, apiKey: Option<string>): Client {
    Client(StripTrailingSlash(OrEmpty(apiUrl)), OrEmpty(apiKey))
  }

  /** A request `fetch` would be given: its URL and its headers in order. */
  datatype Request = Request(url: string, headers: seq<(string, string)>)

  /** The client's `fetchJson(path, params)` up to the call of `fetch`. */
  function ClientRequest(client: Client, path: string, params: QP.Params): (r: Result<Request>)
    ensures r.Err? <==> client.baseUrl == "" || client.apiKey == ""
    ensures r.Err? ==> r.message == "Missing API URL or API KEY."
    ensures r.Ok? ==> r.value.url == RequestUrl(client.baseUrl, path, params)
    ensures r.Ok? ==> r.value.headers == [("Content-Type", "application/json"), ("x-api-key", client.apiKey)]
  {
    if client.baseUrl == "" || client.apiKey == "" then Err("Missing API URL or API KEY.")
    else Ok(Request(RequestUrl(client.baseUrl, path, params),
                    [("Content-Type", "application/json"), ("x-api-key", client.apiKey)]))
  }

  /** A configured URL of just `/` normalises to nothing, so the client refuses every request. */
  lemma SlashOnlyUrlIsMissing(apiKey: Option<string>, path: string, params: QP.Params)
    ensures ClientRequest(CreateApiClient(Some("/"), apiKey), path, params).Err?
  {
  }

  /** The outcome of one response: the body when `res.ok` (a 2xx status), otherwise an error naming the status. */
  function ReadResponse<T>(status: int, body: T): (r: Result<T>)
    ensures r.Ok? <==> 200 <= status <= 299
    ensures r.Ok? ==> r.value == body
    ensures r.Err? ==> r.message == "Request failed (" + IntToString(status) + ")"
  {
    if 200 <= status <= 299 then Ok(body) else Err("Request failed (" + IntToString(status) + ")")
  }

  // ---------------------------------------------------------------------
  // fetchJson in app.js

  /** `config.apiUrl` normalised as app.js does, and `config.apiKey || ""`. */
  datatype AppConfig = AppConfig(apiUrl: string, apiKey: string)

  function ReadConfig(apiUrl: Option<string>, apiKey: Option<string>): AppConfig {
    AppConfig(StripTrailingSlash(OrEmpty(apiUrl)), OrEmpty(apiKey))
  }

  /** app.js's `fetchJson(path, params)` up to `fetch`: only the URL is required, the key header is optional. */
  function AppRequest(config: AppConfig, path: string, params: QP.Params): (r: Result<Request>)
    ensures r.Err? <==> config.apiUrl == ""
    ensures r.Err? ==> r.message == "Missing API URL. Set window.FOOTY_CONFIG.apiUrl."
    ensures r.Ok? ==> r.value.url == RequestUrl(config.apiUrl, path, params)
    ensures r.Ok? ==> |r.value.headers| >= 1 && r.value.headers[0] == ("Content-Type", "application/json")
    ensures r.Ok? ==> (("x-api-key", config.apiKey) in r.value.headers <==> config.apiKey != "")
  {
    if config.apiUrl == "" then Err("Missing API URL. Set window.FOOTY_CONFIG.apiUrl.")
    else
      var keyHeader := if config.apiKey != "" then [("x-api-key", config.apiKey)] else [];
      Ok(Request(RequestUrl(config.apiUrl, path, params), [("Content-Type", "application/json")] + keyHeader))
  }

  /**
   * The two request builders agree: from the same configuration, whenever
   * the client issues a request, app.js issues one to the same URL with the same headers.
   */
  lemma ClientAndAppAgree(apiUrl: Option<string>, apiKey: Option<string>, path: string, params: QP.Params)
    requires ClientRequest(CreateApiClient(apiUrl, apiKey), path, params).Ok?
    ensures AppRequest(ReadConfig(apiUrl, apiKey), path, params) == ClientRequest(CreateApiClient(apiUrl, apiKey), path, params)
  {
    var key := OrEmpty(apiKey);
    assert [("Content-Type", "application/json")] + [("x-api-key", key)]
        == [("Content-Type", "application/json"), ("x-api-key", key)];
  }
}
