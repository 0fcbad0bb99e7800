# Obiex API client: request signing, query normalisation and the currency cache

A Dafny model of the parts of the Obiex Node client that make decisions. The rest of the
client is request and response plumbing.

- **Query parameters** (`src/utils.ts`). `isEmptyValue` decides which parameter values are
  empty. `removeEmptyValue` deletes those keys. `stringifyKeyValuePair` writes one
  `key=value` segment: an array becomes `["v1","v2"]` and the value goes through
  `encodeURIComponent`. `buildQueryString` joins the segments with `&`.
- **Request interceptor** (`src/index.ts`). `requestConfig` strips the parameters and builds
  the query. It signs `METHOD + url[?query] + timestamp` with one clock read, then sets the
  `x-api-timestamp`, `x-api-signature` and `x-api-key` headers.
- **Construction and errors** (`src/index.ts`, `errors/server.ts`). The constructor picks
  the base URL from `sandboxMode`. The response interceptor turns an error that carries a
  response body into a `ServerError`.
- **Currency cache** (`cache.ts`, `src/index.ts`). `CacheService.getOrSet` is a memoiser
  with a time-to-live. `getCurrencies` keeps the currency list in it under `"currencies"`
  for 86400 seconds. `getCurrencyByCode` returns the first cached currency with a given code.

JavaScript values are the datatype `JsValues.Value`: undefined, null, booleans, integral
numbers, strings, arrays of strings, and objects given as their ordered entries.
`encodeURIComponent` follows section 18.2.6.5 of ECMAScript 2015. It works over Unicode
scalar values: the UTF-8 octets of every character outside the unreserved set are
percent-encoded with upper-case hexadecimal digits, as in section 2.1 of RFC 3986. A
reference decoder, percent-decoding and then strict UTF-8 decoding, is the encoder's
partner: every string round-trips.

Some inputs become parameters:

- The HMAC is a function parameter `hmac(secret, content)`. It stands for the lower-case
  hexadecimal HMAC-SHA256 digest.
- `Date.now()` is a timeline `now: nat -> int` read at the position a `Clock` counts. This
  makes "exactly one clock read per request" a stated property.
- The cache's clock is a time at lookup and a time at which the fallback settles.
- The fallback's outcome is an input `Ok(value)` or `Err(reason)`.

The response interceptor reads `error.response.message`. An axios response object has no
`message` field, so in practice the message is `undefined`, and `new Error(undefined)`
gives the empty message. `Client.ErrorMessage` models that conversion exactly.

Modules:

| file | module | models |
|---|---|---|
| results.dfy | Results | `undefined`-or-value, settled promises |
| strings.dfy | Strings | `join`, `split`, ASCII `toUpperCase`, decimal numerals |
| js_values.dfy | JsValues | JS values, truthiness, `String(v)`, `isEmptyValue` |
| uri_component.dfy | UriComponent | `encodeURIComponent` and its reference decoder |
| query_params.dfy | QueryParams | `src/utils.ts` |
| cache.dfy | Cache | `cache.ts` |
| client.dfy | Client | `src/index.ts` core, `errors/server.ts` |

## Model

| member | source | states |
|---|---|---|
| JsValues.IsEmptyValue | src/utils.ts:7-15 | undefined and null are empty; false and every number (0 included) are not; a string is empty exactly when all of its characters are `\s` whitespace (so "" is empty); an array or object is empty exactly when it has no elements or keys |
| JsValues.IsEmptyValueExamples | src/utils.ts:9-13 | "" and " \t\n" are empty; " x " is not; false and 0 are not; [] is empty and [""] is not |
| QueryParams.Strip | src/utils.ts:3 | an entry survives exactly when it was present and its value is not empty; the survivors keep their relative order |
| QueryParams.RemoveEmptyValue | src/utils.ts:1-5 | a non-object gives no entries; an object keeps exactly its non-empty entries, in order; an array keeps exactly its non-empty index entries; no surviving value is empty |
| QueryParams.RemoveEmptyValueIdempotent | src/utils.ts:3 | stripping the stripped entries removes nothing further |
| QueryParams.StripKeepsDistinctKeys | src/utils.ts:3 | deleting keys never makes two entries share a key |
| QueryParams.StripExample | src/utils.ts:1-15 | `{a: "", b: null, c: [], d: {}, e: "x"}` strips to `{e: "x"}` |
| QueryParams.ValueString | src/utils.ts:18 | an array's text starts with `["` and ends with `"]`; any other value is its `String` conversion |
| QueryParams.ArrayTextRoundTrip | src/utils.ts:18 | for every array with at least one item and no `"` in any item, the text reads back as exactly its items, in order |
| QueryParams.ArrayTextAmbiguous | src/utils.ts:18 | the text does not escape: `[]` and `[""]` give the same text, and so do `["a\",\"b"]` and `["a", "b"]` |
| QueryParams.StringifyKeyValuePair | src/utils.ts:17-20 | the segment is the raw key, then `=`, then an encoded value holding neither `&` nor `=` |
| QueryParams.StringifyDecodes | src/utils.ts:18-19 | the part after `key=` decodes to the value's text, which is the bracketed, double-quoted, comma-joined list for an array |
| QueryParams.ArrayWireFormat | src/utils.ts:17-20 | `tags` with `["a","b"]` becomes exactly `tags=%5B%22a%22%2C%22b%22%5D` |
| QueryParams.Entries | src/utils.ts:25 | an object gives its own entries; an array gives its items under their decimal indices; a string gives its characters under their indices; `true` and non-zero numbers give none |
| QueryParams.Segments | src/utils.ts:25 | one `key=value` segment per entry, in entry order |
| QueryParams.BuildQueryString | src/utils.ts:22-26 | a falsy argument gives ""; an object gives "" exactly when it has no entries |
| QueryParams.QuerySplitsIntoSegments | src/utils.ts:25 | when no key holds `&`, splitting the query on `&` gives one segment per entry, in entry order |
| QueryParams.QueryRoundTrip | src/utils.ts:22-26 | when no key holds `&` or `=`, reading the query back gives every entry's key with its decoded value text, in order |
| UriComponent.EncodeDecodeRoundTrip | src/utils.ts:19 | decoding the encoding of any string gives the string back |
| UriComponent.EncodeURIComponent | src/utils.ts:19 | the encoding is never shorter than the value |
| UriComponent.EncodedLengthExact | src/utils.ts:19 | the encoding is exactly as long as the value if and only if every character is unreserved |
| UriComponent.UnchangedExactlyWhenUnreserved | src/utils.ts:19 | a value is sent unchanged if and only if all its characters are unreserved |
| UriComponent.EncodeInjective | src/utils.ts:19 | different values never encode alike |
| UriComponent.EncodedHasNoDelimiter | src/utils.ts:19 | an encoded value never contains `&`, `=` or `?` |
| UriComponent.EncodedAlphabet | src/utils.ts:19 | an encoded value consists only of unreserved characters and `%` |
| UriComponent.UnreservedUnchanged | src/utils.ts:19 | a string of unreserved characters is sent unchanged |
| UriComponent.EncodeAppend | src/utils.ts:19 | encoding a concatenation concatenates the encodings |
| Strings.SplitJoin | src/utils.ts:25 | splitting on a separator undoes joining with it when no part holds the separator |
| Strings.IntToStringRoundTrip | src/index.ts:85 | the decimal timestamp written into the signed content reads back as the same integer |
| Client.BaseUrl | src/index.ts:31-37 | sandbox mode true selects the staging host; false or left out selects production |
| Client.NewClient | src/index.ts:31-60 | the client keeps its credentials, its base URL is staging exactly in sandbox mode, and its cache starts empty |
| Client.NewClientCacheIsEmpty | src/index.ts:59 | a new client's first currency lookup always runs the fetch |
| Client.Sign | src/index.ts:82-95 | exactly one clock read; the returned timestamp is that reading; the signature is the HMAC, keyed by the secret, of upper-cased method, URL and decimal timestamp with no separators |
| Client.SignedUrl | src/index.ts:63-71 | the signed URL is the request URL unchanged exactly when no parameter survives stripping; otherwise it is the URL, `?` and the query built from the surviving entries, whatever their keys hold |
| Client.SignedUrlCarriesQuery | src/index.ts:66-71 | when some parameter survives and no surviving key holds `&` or `=`, the part after `?` reads back as the surviving keys with their value texts, in order |
| Client.ParamsAfterStripping | src/index.ts:63-66 | an object-valued `params` becomes exactly the object of its non-empty entries, in their order (which entries those are is `RemoveEmptyValue`'s contract); any other `params` is left as it was |
| Client.SetAuthHeaders | src/index.ts:75-77 | the three headers are set to the timestamp, the signature and the key; every other header is kept |
| Client.ApplyRequestConfig | src/index.ts:62-80 | one clock read; `x-api-timestamp` is that reading; `x-api-signature` is the HMAC of upper(method) + signed URL + decimal(timestamp); `x-api-key` is the API key; method, URL and the other headers are unchanged; params are stripped in place |
| Client.SignedRequestVerifies | src/index.ts:73-89 | recomputing the HMAC from the method, the signed URL and the timestamp header gives the signature header, and the timestamp header holds the clock reading |
| Client.SignedContentTimestamp | src/index.ts:83-85 | the decimal timestamp at the end of the signed content reads back as the same integer, whatever method and URL come before it |
| Client.DistinctTimestampsDistinctContent | src/index.ts:83-85 | for the same method and URL, different clock readings give different signed content |
| Client.ErrorMessage | errors/server.ts:5-6 | an undefined message becomes ""; a string message is kept |
| Client.InterceptResponse | src/index.ts:42-56 | successes pass unchanged; an error becomes a ServerError exactly when it has a response with a truthy body, carrying that response's message, body and status; any other error is rejected unchanged |
| Client.NotFoundBecomesServerError | src/index.ts:45-52 | a 404 response carrying an object body surfaces as a ServerError with status 404 and the same body |
| Client.BodilessErrorUnchanged | src/index.ts:45-55 | an error without a response, or with a falsy body, is rejected unchanged |
| Client.ToCurrency | src/index.ts:263-273 | every field is copied under its own name, except `maximumDailyDepositLimit`, which becomes `maximumDailyDeposit` |
| Client.ToCurrencies | src/index.ts:263 | one currency per reported record, each the projection of the record at the same position |
| Client.FetchCurrencies | src/index.ts:259-274 | the fallback succeeds exactly when the fetch does, with as many currencies as records and each code kept in place; a rejected fetch keeps its rejection |
| Client.GetCurrencies | src/index.ts:256-277 | a live cached list is returned without fetching; otherwise the projected fetch result is returned, and a successful one is cached under "currencies" for 86400 seconds; a failed fetch leaves the client as it was |
| Client.FindCurrencyByCode | src/index.ts:373 | finds nothing exactly when no currency has the code; otherwise returns the first currency with that code |
| Client.GetCurrencyByCode | src/index.ts:370-374 | a failed list propagates; otherwise undefined exactly when no listed currency has the code, else the first listed currency with that code; the client after the call is the one `getCurrencies` leaves |
| Cache.Get | cache.ts:15 | a value is found exactly when the key is stored and its entry has not expired |
| Cache.Put | cache.ts:23 | the key now holds the value and expires ttl after the write; every other entry is kept |
| Cache.GetOrSet | cache.ts:10-26 | the fallback is skipped exactly when a live truthy value is stored, which is then returned with the store unchanged; otherwise the fallback's outcome is returned, a value being stored under the key and a rejection leaving the store as it was; no other key changes |
| Cache.SecondCallHits | cache.ts:15-25 | after a miss stores a truthy value, a call before it expires is a hit returning that value without the fallback |
| Cache.FalsyValueRefetches | cache.ts:17 | a stored falsy value is never served: the next call runs the fallback again |
| Cache.FalsyStoredValues | cache.ts:17 | a live stored 0, "", false, null or undefined is a miss; a live stored empty array is a hit |
| Cache.ExpiredEntryRefetches | cache.ts:15-23 | once the stored entry has expired, the next call runs the fallback again |
| Cache.FailureDoesNotPoison | cache.ts:21-23 | after a rejected fallback, every later call behaves as if the failed call never happened |
| Cache.FreshStoreMisses | cache.ts:6-8 | an empty store serves nothing, so the first call for any key runs the fallback |

## Left out

- HMAC-SHA256 (RFC 2104 over the SHA-256 of FIPS 180-4) is a function parameter. Only the signed content and the header wiring are modelled.
- `Date.now()` is a timeline parameter. Absolute times and the millisecond unit are not modelled.
- axios is not part of this model: instance creation, interceptor registration, the network and axios's own serialisation of `params` onto the wire URL. The wire URL may differ from the signed one, and that is not visible here.
- The endpoint methods from `getDepositAddress` to `resolveNairaBankAccount` are not modelled. They copy fields of response JSON and make no decisions.
- Concurrency is not modelled. Two overlapping misses on one key both run the fallback, and the source does nothing to prevent that.
- Cache.GetOrSet: node-cache internals are abstracted. A ttl of 0 (no expiry in node-cache) is treated like any other ttl. Cloning of stored values is not modelled. node-cache also deletes an expired entry on read; the model keeps it, which is observably the same because an expired entry is never served.
- JsValues.Value: numbers are integers only, of unbounded size (see `Strings.IntToString` for how JavaScript prints large ones). NaN, -0, floating point and non-integral number-to-string are not modelled. Arrays hold only strings. `String` wrapper objects (`input instanceof String`) are not modelled.
- JsValues.Value: strings are sequences of Unicode scalar values, not UTF-16 code units. The URIError that `encodeURIComponent` throws on a lone surrogate cannot arise. `Object.entries` of a string with characters outside the Basic Multilingual Plane splits surrogate pairs in JavaScript, and the model does not.
- QueryParams.Entries: `Object.entries` moves integer-like keys first, in ascending order. The model keeps entries in the order given.
- QueryParams.RemoveEmptyValue: an array argument is left with holes in JavaScript. The model represents it by its remaining index entries.
- Strings.IntToString: JavaScript writes integral numbers of magnitude 1e21 or more in exponent form (`"1e+21"`), and cannot represent integers beyond 2^53 exactly. The model writes every integer in full decimal digits. This matters only for `Int` parameters that large; `Date.now()` readings are far below it.
- Strings.Upper: `toUpperCase` is modelled on ASCII letters only. Other characters are left unchanged.
- Client.ToCurrencies: `response.data.map` throws when the response body is not an array. The model takes the fetched list as already an array.
- The older client in `index.ts` and `dist/index.js` is not modelled. It signs the bare URL with no query handling and always sets Content-Type.
- Type-only files (`types/index.ts`, the `dist/*.d.ts` declarations) are not modelled. The `Currency` fields are borrowed as a datatype.
