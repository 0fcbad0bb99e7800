/**
 * The decisions of `ObiexClient` in `src/index.ts`: the base URL chosen at construction,
 * the request interceptor that strips and serialises the query parameters and signs the
 * request, the response-error interceptor that builds a `ServerError`
 * (`errors/server.ts`), and the cached currency list with its lookup by code.
 *
 * The HMAC and the millisecond clock are inputs: `hmac(secret, content)` stands for the
 * lower-case hexadecimal HMAC-SHA256 digest of `content` keyed by `secret`, and the clock is
 * a timeline `now` read at the position a `Clock` counts.
 */
module Client {
  import opened Results
  import opened Strings
  import opened JsValues
  import opened QueryParams
  import opened Cache

  const StagingUrl: string := "https://staging.api.obiex.finance"
  const ProductionUrl: string := "https://api.obiex.finance"

  /** Constructor options; `sandboxMode` may be left out. */
  datatype Options = Options(apiKey: string, apiSecret: string, sandboxMode: Option<bool>)

  /** A currency as the client hands it out. */
  datatype Currency = Currency(
    id: string, name: string, code: string,
    receivable: bool, withdrawable: bool, transferrable: bool,
    minimumDeposit: int, maximumDailyDeposit: int, maximumDecimalPlaces: int)

  /** A currency as `GET /v1/currencies` reports it. */
  datatype CurrencyRecord = CurrencyRecord(
    id: string, name: string, code: string,
    receivable: bool, withdrawable: bool, transferrable: bool,
    minimumDeposit: int, maximumDailyDepositLimit: int, maximumDecimalPlaces: int)

  /** A client: its credentials, its base URL and its own currency cache. */
  datatype ObiexClient = ObiexClient(apiKey: string, apiSecret: string, baseUrl: string,
                                     cache: Store<seq<Currency>>)

  // ----- construction -----

  /** Sandbox mode selects the staging host; `false` or leaving it out selects production. */
  function BaseUrl(sandboxMode: Option<bool>): (r: string)
    ensures r == StagingUrl <==> sandboxMode == Some(true)
    ensures r == ProductionUrl <==> sandboxMode != Some(true)
  {
    var sandbox := match sandboxMode case None => false case Some(b) => b;
    if sandbox then StagingUrl else ProductionUrl
  }

  /** The constructor keeps the credentials, picks the base URL and creates an empty cache. */
  function NewClient(options: Options): (c: ObiexClient)
    ensures c.apiKey == options.apiKey && c.apiSecret == options.apiSecret
    ensures c.baseUrl == StagingUrl <==> options.sandboxMode == Some(true)
    ensures |c.cache| == 0
  {
    ObiexClient(options.apiKey, options.apiSecret, BaseUrl(options.sandboxMode), map[])
  }

  /** Two clients never share cached data: a new client's first currency lookup always fetches. */
  lemma NewClientCacheIsEmpty<E>(options: Options, fallback: Attempt<seq<Currency>, E>, now: int, settledAt: int)
    ensures GetOrSet(NewClient(options).cache, CurrenciesKey, fallback, CurrenciesTtl, now, settledAt,
                     ArrayTruthy).fallbackCalled
  {
    FreshStoreMisses(CurrenciesKey, fallback, CurrenciesTtl, now, settledAt, ArrayTruthy);
  }

  // ----- request signing -----

  /** Number of times `Date.now()` has been read. */
  datatype Clock = Clock(count: nat)

  datatype HeaderValue = Num(n: int) | Text(s: string)

  /** The parts of an outgoing request the interceptor reads or writes. */
  datatype RequestConfig = RequestConfig(httpMethod: string, url: string, params: Value,
                                         headers: map<string, HeaderValue>)

  const TimestampHeader: string := "x-api-timestamp"
  const SignatureHeader: string := "x-api-signature"
  const KeyHeader: string := "x-api-key"

  /** The result of `sign`. */
  datatype Signed = Signed(timestamp: int, signature: string)

  /**
   * `sign(method, originalUrl)`: one clock read; the signature covers the upper-cased
   * method, the URL and the decimal timestamp, concatenated without separators.
   */
  function Sign(secret: string, httpMethod: string, originalUrl: string, now: nat -> int, clock: Clock,
                hmac: (string, string) -> string): (r: (Signed, Clock))
    ensures r.1.count == clock.count + 1
    ensures r.0.timestamp == now(clock.count)
    ensures r.0.signature == hmac(secret, Upper(httpMethod) + originalUrl + IntToString(r.0.timestamp))
  {
    var timestamp := now(clock.count);
    var content := Upper(httpMethod) + originalUrl + IntToString(timestamp);
    (Signed(timestamp, hmac(secret, content)), Clock(clock.count + 1))
  }

  /** The URL that is signed: the request URL, followed by `?` and the query when there is one. */
  function SignedUrl(url: string, params: Value): (r: string)
    ensures RemoveEmptyValue(params) == [] <==> r == url
    ensures RemoveEmptyValue(params) != [] ==> r == url + "?" + BuildQueryString(Obj(RemoveEmptyValue(params)))
  {
    var query := BuildQueryString(Obj(RemoveEmptyValue(params)));
    if query != "" then url + "?" + query else url
  }

  /**
   * When some parameter survives stripping, the signed URL is the request URL, `?`, and a
   * query that reads back as the surviving entries with their value texts, in order.
   */
  lemma {:induction false} SignedUrlCarriesQuery(url: string, params: Value, ps: Params)
    requires ps == RemoveEmptyValue(params) && ps != []
    requires forall e :: e in ps ==> '&' !in e.0 && '=' !in e.0
    ensures var r := SignedUrl(url, params);
            |r| > |url| && r[..|url|] == url && r[|url|] == '?'
            && |ParseQuery(r[|url| + 1..])| == |ps|
            && forall i :: 0 <= i < |ps| ==> ParseQuery(r[|url| + 1..])[i] == (ps[i].0, Some(ValueString(ps[i].1)))
  {
    forall i | 0 <= i < |ps|
      ensures '&' !in ps[i].0 && '=' !in ps[i].0
    {
      assert ps[i] in ps;
    }
    QueryRoundTrip(ps);
    var q := BuildQueryString(Obj(ps));
    assert (url + "?" + q)[|url| + 1..] == q;
  }

  /** `requestConfig.params` after the interceptor: an object is stripped in place, anything else is left as it was. */
  function ParamsAfterStripping(params: Value): (r: Value)
    ensures IsObject(params) ==> r == Obj(RemoveEmptyValue(params))
    ensures IsObject(params) ==> r.Obj? && forall e :: e in r.entries ==> !IsEmptyValue(e.1)
    ensures !IsObject(params) ==> r == params
  {
    if IsObject(params) then Obj(RemoveEmptyValue(params)) else params
  }

  /** The three header assignments of the request interceptor, in the source's order. */
  function SetAuthHeaders(headers: map<string, HeaderValue>, signed: Signed, apiKey: string)
    : (r: map<string, HeaderValue>)
    ensures r.Keys == headers.Keys + {TimestampHeader, SignatureHeader, KeyHeader}
    ensures r[TimestampHeader] == Num(signed.timestamp)
    ensures r[SignatureHeader] == Text(signed.signature)
    ensures r[KeyHeader] == Text(apiKey)
    ensures forall h :: h in headers && h != TimestampHeader && h != SignatureHeader && h != KeyHeader ==>
              r[h] == headers[h]
  {
    assert TimestampHeader != SignatureHeader && TimestampHeader != KeyHeader && SignatureHeader != KeyHeader;
    headers[TimestampHeader := Num(signed.timestamp)][SignatureHeader := Text(signed.signature)]
           [KeyHeader := Text(apiKey)]
  }

  /**
   * `requestConfig(config)`: signs the method and the URL with its stripped query, then sets
   * the timestamp, signature and key headers. Exactly one clock read happens; the timestamp
   * header is the timestamp inside the signed content; the URL, the method and every other
   * header are left alone.
   */
  function ApplyRequestConfig(client: ObiexClient, config: RequestConfig, now: nat -> int, clock: Clock,
                              hmac: (string, string) -> string): (r: (RequestConfig, Clock))
    ensures r.1.count == clock.count + 1
    ensures var ts := now(clock.count);
            && TimestampHeader in r.0.headers && r.0.headers[TimestampHeader] == Num(ts)
            && SignatureHeader in r.0.headers
            && r.0.headers[SignatureHeader]
               == Text(hmac(client.apiSecret, Upper(config.httpMethod) + SignedUrl(config.url, config.params) + IntToString(ts)))
    ensures KeyHeader in r.0.headers && r.0.headers[KeyHeader] == Text(client.apiKey)
    ensures forall h :: h != TimestampHeader && h != SignatureHeader && h != KeyHeader ==>
              (h in r.0.headers <==> h in config.headers)
    ensures forall h :: h in config.headers && h != TimestampHeader && h != SignatureHeader && h != KeyHeader ==>
              r.0.headers[h] == config.headers[h]
    ensures r.0.httpMethod == config.httpMethod && r.0.url == config.url
    ensures r.0.params == ParamsAfterStripping(config.params)
  {
    var url := SignedUrl(config.url, config.params);
    var (signed, clock') := Sign(client.apiSecret, config.httpMethod, url, now, clock, hmac);
    var headers := SetAuthHeaders(config.headers, signed, client.apiKey);
    (RequestConfig(config.httpMethod, config.url, ParamsAfterStripping(config.params), headers), clock')
  }

  /**
   * What the server checks: recomputing the HMAC from the method, the URL and the timestamp
   * header gives the signature header.
   */
  predicate ServerAccepts(hmac: (string, string) -> string, secret: string, httpMethod: string, url: string,
                          headers: map<string, HeaderValue>)
  {
    && TimestampHeader in headers && headers[TimestampHeader].Num?
    && SignatureHeader in headers && headers[SignatureHeader].Text?
    && headers[SignatureHeader].s == hmac(secret, Upper(httpMethod) + url + IntToString(headers[TimestampHeader].n))
  }

  /**
   * Every signed request passes the server's check for the URL with its query, and the
   * timestamp header holds the clock reading the signature covers.
   */
  lemma SignedRequestVerifies(client: ObiexClient, config: RequestConfig, now: nat -> int, clock: Clock,
                              hmac: (string, string) -> string)
    ensures var r := ApplyRequestConfig(client, config, now, clock, hmac).0;
            && ServerAccepts(hmac, client.apiSecret, config.httpMethod, SignedUrl(config.url, config.params), r.headers)
            && r.headers[TimestampHeader] == Num(now(clock.count))
  {
  }

  /**
   * The signed content ends in the decimal timestamp, so the timestamp reads back from the
   * tail of the content whatever the method and URL before it.
   */
  lemma {:induction false} SignedContentTimestamp(prefix: string, timestamp: int)
    ensures ParseInt((prefix + IntToString(timestamp))[|prefix|..]) == Some(timestamp)
  {
    assert (prefix + IntToString(timestamp))[|prefix|..] == IntToString(timestamp);
    IntToStringRoundTrip(timestamp);
  }

  /**
   * Two requests with the same method and URL signed at different clock readings sign
   * different content, so a signature cannot be replayed under another timestamp.
   */
  lemma {:induction false} DistinctTimestampsDistinctContent(httpMethod: string, url: string, t1: int, t2: int)
    requires t1 != t2
    ensures Upper(httpMethod) + url + IntToString(t1) != Upper(httpMethod) + url + IntToString(t2)
  {
    var prefix := Upper(httpMethod) + url;
    if prefix + IntToString(t1) == prefix + IntToString(t2) {
      assert (prefix + IntToString(t1))[|prefix|..] == IntToString(t1);
      assert (prefix + IntToString(t2))[|prefix|..] == IntToString(t2);
      IntToStringInjective(t1, t2);
    }
  }

  // ----- response-error interceptor -----

  /** The parts of an HTTP response the error interceptor reads. */
  datatype HttpResponse = HttpResponse(status: int, data: Value, message: Value)

  /** A failed request: with the server's response when one arrived. */
  datatype RequestError = RequestError(response: Option<HttpResponse>, description: string)

  /** `ServerError` of `errors/server.ts`: an `Error` with the response body and status attached. */
  datatype ServerError = ServerError(message: string, data: Value, statusCode: int)

  /** What a rejected request settles to after the interceptor. */
  datatype Rejection = Server(error: ServerError) | Unchanged(original: RequestError)

  /** `new Error(message).message`: empty for `undefined`, the string conversion otherwise. */
  function ErrorMessage(message: Value): (r: string)
    ensures message.Str? ==> r == message.s
    ensures message.Undefined? ==> r == ""
  {
    if message.Undefined? then "" else ToString(message)
  }

  /**
   * The response interceptor: a success passes through unchanged; an error whose response
   * carries a truthy body becomes a `ServerError` with that response's message, body and
   * status; any other error is rejected unchanged.
   */
  function InterceptResponse(outcome: Attempt<HttpResponse, RequestError>): (r: Attempt<HttpResponse, Rejection>)
    ensures outcome.Ok? <==> r.Ok?
    ensures outcome.Ok? ==> r.value == outcome.value
    ensures r.Err? ==> (r.error.Server? <==> outcome.error.response.Some? && !IsFalsy(outcome.error.response.value.data))
    ensures r.Err? && r.error.Server? ==>
      var resp := outcome.error.response.value;
      r.error.error == ServerError(ErrorMessage(resp.message), resp.data, resp.status)
    ensures r.Err? && r.error.Unchanged? ==> r.error.original == outcome.error
  {
    match outcome
    case Ok(response) => Ok(response)
    case Err(error) =>
      if error.response.Some? && !IsFalsy(error.response.value.data) then
        var resp := error.response.value;
        Err(Server(ServerError(ErrorMessage(resp.message), resp.data, resp.status)))
      else Err(Unchanged(error))
  }

  /** A 404 carrying a body surfaces as a `ServerError` with status 404 and the original body. */
  lemma NotFoundBecomesServerError(body: Value, message: Value)
    requires body.Obj? || body.Arr?
    ensures var r := InterceptResponse(Err(RequestError(Some(HttpResponse(404, body, message)), "")));
            r.Err? && r.error.Server? && r.error.error.statusCode == 404 && r.error.error.data == body
  {
  }

  /** An error without a response, or whose body is falsy, is passed on as it is. */
  lemma BodilessErrorUnchanged(error: RequestError)
    requires error.response.None? || IsFalsy(error.response.value.data)
    ensures InterceptResponse(Err(error)) == Err(Unchanged(error))
  {
  }

  // ----- cached currency list -----

  const CurrenciesKey: string := "currencies"

  /** One day, in seconds. */
  const CurrenciesTtl: int := 86400

  /** A JavaScript array is truthy even when it is empty. */
  function ArrayTruthy(list: seq<Currency>): bool
  {
    true
  }

  /** The field copy `getCurrencies` applies to each reported currency. */
  function ToCurrency(x: CurrencyRecord): (c: Currency)
    ensures c.id == x.id && c.name == x.name && c.code == x.code
    ensures c.receivable == x.receivable && c.withdrawable == x.withdrawable && c.transferrable == x.transferrable
    ensures c.minimumDeposit == x.minimumDeposit && c.maximumDecimalPlaces == x.maximumDecimalPlaces
    ensures c.maximumDailyDeposit == x.maximumDailyDepositLimit
  {
    Currency(x.id, x.name, x.code, x.receivable, x.withdrawable, x.transferrable,
             x.minimumDeposit, x.maximumDailyDepositLimit, x.maximumDecimalPlaces)
  }

  /** `response.data.map(...)`: one currency per reported record, in the reported order. */
  function ToCurrencies(xs: seq<CurrencyRecord>): (r: seq<Currency>)
    ensures |r| == |xs|
    ensures forall i :: 0 <= i < |xs| ==> r[i] == ToCurrency(xs[i])
  {
    seq(|xs|, i requires 0 <= i < |xs| => ToCurrency(xs[i]))
  }

  /** The fallback of `getCurrencies`: the fetched list, projected; a rejected fetch stays rejected. */
  function FetchCurrencies(fetched: Attempt<seq<CurrencyRecord>, Rejection>): (r: Attempt<seq<Currency>, Rejection>)
    ensures r.Ok? <==> fetched.Ok?
    ensures r.Ok? ==> |r.value| == |fetched.value|
                      && forall i :: 0 <= i < |r.value| ==> r.value[i].code == fetched.value[i].code
    ensures r.Err? ==> r.error == fetched.error
  {
    match fetched
    case Ok(xs) => Ok(ToCurrencies(xs))
    case Err(e) => Err(e)
  }

  /**
   * `getCurrencies()`: the currency list through the client's cache under `"currencies"`
   * for one day. A live cached list is served without fetching; otherwise the fetch's
   * outcome is returned and, when it succeeds, cached.
   */
  function GetCurrencies(client: ObiexClient, fetched: Attempt<seq<CurrencyRecord>, Rejection>,
                         now: int, settledAt: int): (r: (Attempt<seq<Currency>, Rejection>, ObiexClient))
    ensures r.1.apiKey == client.apiKey && r.1.apiSecret == client.apiSecret && r.1.baseUrl == client.baseUrl
    ensures CurrenciesKey in client.cache && Live(client.cache[CurrenciesKey], now) ==>
      r.0 == Ok(client.cache[CurrenciesKey].value) && r.1 == client
    ensures !(CurrenciesKey in client.cache && Live(client.cache[CurrenciesKey], now)) ==>
      r.0 == FetchCurrencies(fetched)
      && (fetched.Ok? ==> CurrenciesKey in r.1.cache
                          && r.1.cache[CurrenciesKey] == Entry(ToCurrencies(fetched.value), settledAt + CurrenciesTtl))
      && (fetched.Err? ==> r.1 == client)
  {
    var step := GetOrSet(client.cache, CurrenciesKey, FetchCurrencies(fetched), CurrenciesTtl, now, settledAt,
                         ArrayTruthy);
    (step.result, client.(cache := step.store))
  }

  /** The first currency with the given code, as `Array.prototype.find` returns it. */
  method FindCurrencyByCode(currencies: seq<Currency>, code: string) returns (r: Option<Currency>)
    ensures r.None? <==> forall i :: 0 <= i < |currencies| ==> currencies[i].code != code
    ensures r.Some? ==> exists i :: 0 <= i < |currencies| && currencies[i] == r.value && r.value.code == code
                                  && forall j :: 0 <= j < i ==> currencies[j].code != code
  {
    var i := 0;
    while i < |currencies|
      invariant 0 <= i <= |currencies|
      invariant forall j :: 0 <= j < i ==> currencies[j].code != code
    {
      if currencies[i].code == code {
        return Some(currencies[i]);
      }
      i := i + 1;
    }
    return None;
  }

  /**
   * `getCurrencyByCode(code)`: the first cached (or freshly fetched) currency with that
   * code, `undefined` when none has it; a rejected fetch propagates.
   */
  method GetCurrencyByCode(client: ObiexClient, code: string, fetched: Attempt<seq<CurrencyRecord>, Rejection>,
                           now: int, settledAt: int) returns (r: Attempt<Option<Currency>, Rejection>, client': ObiexClient)
    ensures client' == GetCurrencies(client, fetched, now, settledAt).1
    ensures var list := GetCurrencies(client, fetched, now, settledAt).0;
            && (list.Err? ==> r == Err(list.error))
            && (list.Ok? ==> r.Ok? && (r.value.None? <==> forall i :: 0 <= i < |list.value| ==> list.value[i].code != code))
            && (list.Ok? && r.Ok? && r.value.Some? ==> r.value.value in list.value && r.value.value.code == code)
            && (list.Ok? && r.Ok? && r.value.Some? ==>
                  (exists i :: 0 <= i < |list.value| && list.value[i] == r.value.value
                               && forall j :: 0 <= j < i ==> list.value[j].code != code))
  {
    var (list, c) := GetCurrencies(client, fetched, now, settledAt);
    client' := c;
    match list {
      case Err(e) =>
        r := Err(e);
      case Ok(currencies) =>
        var found := FindCurrencyByCode(currencies, code);
        r := Ok(found);
    }
  }
}
