# The `http.call` workflow node, modelled in Dafny

The windmill service runs DAG workflows, and `http.call` is its generic node.
A workflow step names a logical service, an HTTP method, a path and,
optionally, a body and a query. The node resolves the service's base URL and
API key from environment variables named after the service
(`<PREFIX>_SERVICE_URL`, `<PREFIX>_SERVICE_API_KEY`). It then sends exactly
one request and normalises the reply into a JSON value or an error.

This project models that node as pure functions. It proves what the node
promises about each step.

| file | module | what it holds |
|---|---|---|
| `wrappers.dfy` | `Wrappers` | `Option`, for lookups that may be unset and parses that may fail |
| `ascii.dfy` | `Ascii` | the ASCII part of `toUpperCase`, and comparison up to case |
| `decimal.dfy` | `Decimal` | decimal rendering of the status code, and the digit reader that inverts it |
| `utf8.dfy` | `Utf8` | UTF-8 encoding of characters, and a strict decoder proved to be its exact inverse |
| `form_urlencoded.dfy` | `FormUrlEncoded` | the `application/x-www-form-urlencoded` serializer (section 5.2 of the WHATWG URL Standard, used by `URLSearchParams`); the parser of section 5.1 as its inverse; the round trip between them |
| `json.dfy` | `Json` | an abstract JSON value, `{}` and the `{raw: text}` wrapper |
| `http_call.dfy` | `HttpCall` | the node itself: `BuildRequest`, `InterpretResponse` and `Invoke` |

How the pieces fit:

- **The environment** is the `Env` parameter, a lookup `string -> Option<string>`.
- **`JSON.stringify` and `JSON.parse`** are oracle parameters over `Json.Value`. The parse oracle returns `None` where `JSON.parse` would throw.
- **`fetch`** is a function `Request -> Reply`, held in a `Transport` with the history of the requests sent through it. A `Reply` is either a response `(status, text)` or a transport failure that `fetch` throws.
- **`BuildRequest`** resolves the configuration and builds the single `Request`. It fails with `ConfigError` before any request exists.
- **`InterpretResponse`** turns a status and a body text into the node's value or a `RemoteError`.
- **`Invoke`** composes the two and sends through the `Transport`. Its history grows by exactly the built request when the configuration resolves, and not at all when it does not.

Three details of the code shape what the model states:

- **Prefix derivation.** The code (`scripts/nodes/http-call.ts:17`) upper-cases the name and replaces each `-` with `_`, and nothing else. So `a.b` keeps its dot and `a--b` becomes `A__B`.
- **Empty values.** The code tests truthiness (`:21`, `:39`). A base URL or API key set to the empty string is treated exactly like an unset one.
- **Which statuses fail.** The code tests `response.ok`, so only 200–299 succeed: the ok status of section 2.2.3 of the WHATWG Fetch Standard. Any 3xx that reaches the node is a remote error.

## Model

| member | source | states |
|---|---|---|
| `Ascii.ToUpperPointwise` | scripts/nodes/http-call.ts:17 | `Ascii.ToUpper`: upper-casing keeps the length and maps every character independently: a..z to A..Z, every other character unchanged |
| `Ascii.ToUpperEqualsIff` | scripts/nodes/http-call.ts:45 | `Ascii.ToUpper` against `Ascii.EqualsIgnoringCase`: the upper-cased method equals an upper-case literal if and only if the method equals that literal up to ASCII case |
| `HttpCall.ReplaceHyphensPointwise` | scripts/nodes/http-call.ts:17 | `HttpCall.ReplaceHyphens`: the global hyphen replacement keeps the length, turns every `-` into `_` and leaves every other character where it was |
| `HttpCall.EnvPrefixPointwise` | scripts/nodes/http-call.ts:16-17 | `HttpCall.EnvPrefix`: the prefix has the service name's length; each position is the upper-cased character, or `_` where the name has `-`; no `-` remains; characters that are neither lower-case letters nor `-` are copied unchanged |
| `HttpCall.EnvPrefixIs` | scripts/nodes/http-call.ts:16-17 | `HttpCall.EnvPrefix` against `HttpCall.PrefixChar`: a string is the prefix of a service name if and only if it has the name's length and agrees with the per-character rule at every position |
| `HttpCall.SamePrefixIff` | scripts/nodes/http-call.ts:16-19 | `HttpCall.EnvPrefix`: two service names read the same environment variables if and only if they agree position by position up to ASCII case and `-` versus `_` |
| `HttpCall.EnvPrefixExample` | scripts/nodes/http-call.ts:16 | `HttpCall.EnvPrefix`: `transactional-email` gives the prefix `TRANSACTIONAL_EMAIL` |
| `HttpCall.VariableNamesExample` | scripts/nodes/http-call.ts:3-5 | `HttpCall.UrlVariable` and `HttpCall.ApiKeyVariable`: service `stripe` reads `STRIPE_SERVICE_URL` and `STRIPE_SERVICE_API_KEY` |
| `HttpCall.BuildRequest` | scripts/nodes/http-call.ts:16-47 | the request is built if and only if the base-URL variable is set and not empty, and otherwise the result is a configuration error; the method is passed to fetch exactly as the caller wrote it |
| `HttpCall.ConfigErrorNamesVariable` | scripts/nodes/http-call.ts:18-26 | `HttpCall.ConfigMessage`: with the base URL unset or empty, the call fails with a configuration error whose message mentions both the missing variable's name and the service name |
| `HttpCall.UrlAssembly` | scripts/nodes/http-call.ts:29-33 | `HttpCall.QueryString`: with no query, or a query without entries, the URL is exactly base URL followed by path, with nothing normalised; otherwise it is base URL, path, `?` and a non-empty form encoding, and the entries read back from the text after the `?` in their order |
| `HttpCall.HeadersContract` | scripts/nodes/http-call.ts:36-41 | `HttpCall.Headers`: the headers always map `Content-Type` to `application/json`; they hold `x-api-key` if and only if the key variable is set and not empty, and then it holds exactly that key; no other header is set |
| `HttpCall.SendsBodyIff` | scripts/nodes/http-call.ts:45 | `HttpCall.SendsBody`: the method test accepts exactly POST, PUT and PATCH in any ASCII case |
| `HttpCall.BodyGating` | scripts/nodes/http-call.ts:43-47 | `HttpCall.RequestBody`: a body is attached if and only if one is given and the method is POST, PUT or PATCH in any ASCII case; the attached body is the serialisation of the given object; the method is unchanged |
| `HttpCall.GetSendsNoBody` | scripts/nodes/http-call.ts:45-47 | `HttpCall.RequestBody`: a GET request never carries the body it was given |
| `HttpCall.InterpretResponse` | scripts/nodes/http-call.ts:51-66 | a reply is a remote error if and only if its status is outside 200–299, and the error carries that status; no other kind of error comes out of a reply |
| `HttpCall.RemoteErrorMessage` | scripts/nodes/http-call.ts:51-56 | `HttpCall.RemoteMessage`: a status that is not ok yields an error and no value; the error carries the status, and its message mentions the method, service followed by path, the status in decimal and the response text |
| `HttpCall.ServerErrorShowsStatus` | scripts/nodes/http-call.ts:51-56 | `HttpCall.InterpretResponse`: status 500 yields a remote error whose message mentions `500` and the response text |
| `HttpCall.OkResponseNormalised` | scripts/nodes/http-call.ts:58-66 | `HttpCall.InterpretResponse`: on an ok status the result is never an error: empty text gives `{}`, text that parses gives the parsed value, any other text gives `Json.RawWrapper(text)`, which `Json.RawWrapperUnique` shows is exactly the one-member object `{raw: text}` |
| `HttpCall.NoContentGivesEmptyObject` | scripts/nodes/http-call.ts:58-60 | `HttpCall.InterpretResponse`: status 204 with an empty body gives `{}`, not an error |
| `HttpCall.Invoke` | scripts/nodes/http-call.ts:9-67 | every call of fetch goes through `HttpCall.Send`, which records the request; the transport's history grows by exactly the built request when the base URL resolves and stays as it was otherwise; without it the result is the configuration error; with it, a transport failure passes through unchanged and a response is normalised as `InterpretResponse` states |
| `Decimal.ParseNatToString` | scripts/nodes/http-call.ts:54 | `Decimal.NatToString` against `Decimal.ParseDigits`: the status in the error message is rendered as decimal digits without a leading zero, and these digits read back as the status |
| `FormUrlEncoded.FormSetComplement` | scripts/nodes/http-call.ts:31-32 | `FormUrlEncoded.InFormSet`: the nested percent-encode sets leave exactly ASCII letters, digits and `*-._` unescaped |
| `FormUrlEncoded.PercentDecodeEncode` | scripts/nodes/http-call.ts:31-32 | `FormUrlEncoded.PercentEncode` against `FormUrlEncoded.PercentDecode`: turning `+` back into a space and percent-decoding restores any byte sequence the encoder wrote |
| `FormUrlEncoded.DecodeEncodeComponent` | scripts/nodes/http-call.ts:31-32 | `FormUrlEncoded.EncodeComponent` against `FormUrlEncoded.DecodeComponent`: every query name and value decodes back to itself, and its encoding contains no `&`, no `=` and no non-ASCII byte |
| `FormUrlEncoded.ParseSerialize` | scripts/nodes/http-call.ts:31-32 | `FormUrlEncoded.Serialize` against `FormUrlEncoded.Parse`: parsing the serialized query gives back the same entries in the same order, empty names and values included |
| `FormUrlEncoded.EncodeIsomorphicDecode` | scripts/nodes/http-call.ts:31-32 | `FormUrlEncoded.IsomorphicDecode` against `Utf8.Encode`: on the ASCII bytes the serializer writes, UTF-8 encoding the serialized string gives back exactly those bytes |
| `FormUrlEncoded.SerializeEmptyIff` | scripts/nodes/http-call.ts:30-32 | `FormUrlEncoded.Serialize`: the serialized query is empty if and only if there are no entries |
| `FormUrlEncoded.EncodeComponentExample` | scripts/nodes/http-call.ts:31-32 | `FormUrlEncoded.EncodeComponent`: the value `x y` is written `x+y` |
| `FormUrlEncoded.SerializeExample` | scripts/nodes/http-call.ts:31-32 | `FormUrlEncoded.Serialize`: the query `{a: "1", b: "x y"}` serializes to `a=1&b=x+y` |
| `FormUrlEncoded.EncodeNonAsciiExample` | scripts/nodes/http-call.ts:31-32 | `FormUrlEncoded.EncodeComponent`: `é+~` is written `%C3%A9%2B%7E`: UTF-8 bytes of non-ASCII characters are percent-encoded with upper-case hex, and `+` and `~` are escaped |
| `Json.RawWrapperUnique` | scripts/nodes/http-call.ts:65 | `Json.RawWrapper` against `Json.Field`: any object with exactly one member whose `raw` field is the text is the wrapper, so the wrapper is `{raw: text}` and nothing more |
| `Utf8.DecodeEncode` | scripts/nodes/http-call.ts:31-32 | `Utf8.Encode` against `Utf8.Decode`: decoding the UTF-8 encoding of any string gives the string back |
| `Utf8.EncodeDecode` | scripts/nodes/http-call.ts:31-32 | `Utf8.Encode` against `Utf8.Decode`: a byte sequence that decodes is the encoding of what it decodes to, so the decoder accepts nothing the encoder cannot write |

## Left out

- `scripts/generate-openapi.ts` is not part of this model. It is one call into an OpenAPI generator library, a file write and a log line around static description text. The retries, topological ordering and loop constructs that text advertises are the workflow engine's, so the model issues exactly one request and has no retry.
- The network round trip, `async`/`await` and the `Response` object are not modelled. `fetch` is a function from the request to a reply, so the same request always gets the same reply. A failure while reading the body text is not modelled.
- `JSON.parse` and `JSON.stringify` are oracle parameters. Their grammar, number precision and key ordering are not modelled.
- `Bun.env` is the injected `Env` lookup. The model does not say when or how the process environment is read.
- `HttpCall.EnvPrefixPointwise`: the contract covers ASCII case mapping only. JavaScript's `toUpperCase` also maps non-ASCII letters (`ß` becomes `SS`, changing the length), and the model leaves every non-ASCII character unchanged.
- `HttpCall.SendsBodyIff`: same ASCII restriction. In JavaScript, `poſt` (long s) upper-cases to `POST` and would carry the body; in the model it does not.
- `Ascii.ToUpperPointwise`, `Ascii.ToUpperEqualsIff`, `HttpCall.EnvPrefixIs` and `HttpCall.SamePrefixIff` carry the same ASCII restriction. In JavaScript `é` and `É` read the same variables, while in the model `EnvPrefix("é")` is `é` and the two names differ.
- `HttpCall.BodyGating`: the body is modelled as the members of a plain object, as the declared parameter type says. A falsy non-object passed in its place (`0`, `""`, `null`) is not modelled.
- `HttpCall.UrlAssembly`: the query is the sequence of the object's entries in enumeration order. JavaScript's ordering rule for own keys (integer-like keys first, ascending) is not modelled; the sequence is taken as given.
- Strings are sequences of Unicode scalar values. JavaScript strings may hold lone surrogates, which `URLSearchParams` replaces with U+FFFD; that case is not modelled.
- `FormUrlEncoded.Parse` decodes UTF-8 strictly and fails on ill-formed bytes, where section 5.1 substitutes U+FFFD. The two agree on everything the serializer writes, which is all the round trip needs.
- Response status is an unbounded natural number. The model assumes nothing about the range the runtime allows.
- Header names are kept exactly as the code writes them. The case-insensitivity of fetch's `Headers` is not modelled.
