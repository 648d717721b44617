/** The generic http.call workflow node: it turns a logical service name, an
    HTTP verb, a path and an optional body and query into one outbound
    request, and normalises the reply.

    The worker's environment, JSON.stringify, JSON.parse and fetch are
    parameters: the environment is a lookup by variable name, the JSON
    functions are oracles over Json.Value, and fetch maps a request to the
    reply the downstream service (or the network) gives it. */
module HttpCall {
  import opened Wrappers
  import Ascii
  import Decimal
  import FormUrlEncoded
  import Json

  /** The worker's environment variables. */
  type Env = string -> Option<string>

  /** A query: the entries of the object in its enumeration order. */
  type Query = seq<(string, string)>

  /** A request body: the members of a plain object. */
  type Body = seq<(string, Json.Value)>

  /** The request handed to fetch. */
  datatype Request = Request(url: string, verb: string, headers: map<string, string>, body: Option<string>)

  /** What fetch gives back: a response, or a transport failure (DNS,
      refused connection, timeout) it throws. */
  datatype Reply = Response(status: nat, text: string) | NetworkFailure(detail: string)

  /** The outcome of one invocation: a value, or one of the three ways it
      fails. */
  datatype Result<+T> =
    | Ok(value: T)
    | ConfigError(msg: string)
    | RemoteError(status: nat, msg: string)
    | TransportError(detail: string)

  /** True when part occurs in msg starting at position i. */
  predicate OccursAt(msg: string, part: string, i: int) {
    0 <= i && i + |part| <= |msg| && msg[i..i + |part|] == part
  }

  /** True when part occurs somewhere in msg. */
  predicate Mentions(msg: string, part: string) {
    exists i :: 0 <= i <= |msg| && OccursAt(msg, part, i)
  }

  /** Every string mentions itself. */
  lemma MentionsSelf(part: string)
    ensures Mentions(part, part)
  {
    assert part[0..|part|] == part;
    assert OccursAt(part, part, 0);
  }

  /** What a string mentions, any extension of it on the right mentions. */
  lemma MentionsInLeft(a: string, b: string, part: string)
    requires Mentions(a, part)
    ensures Mentions(a + b, part)
  {
    var i :| 0 <= i <= |a| && OccursAt(a, part, i);
    assert (a + b)[i..i + |part|] == a[i..i + |part|];
    assert OccursAt(a + b, part, i);
  }

  /** What a string mentions, any extension of it on the left mentions. */
  lemma MentionsInRight(a: string, b: string, part: string)
    requires Mentions(b, part)
    ensures Mentions(a + b, part)
  {
    var i :| 0 <= i <= |b| && OccursAt(b, part, i);
    assert (a + b)[|a| + i..|a| + i + |part|] == b[i..i + |part|];
    assert OccursAt(a + b, part, |a| + i);
  }

  /* ---------- Environment variable names ---------- */

  /** Replaces every '-' with '_' and leaves every other character alone. */
  function ReplaceHyphens(s: string): string
  {
    if |s| == 0 then "" else [if s[0] == '-' then '_' else s[0]] + ReplaceHyphens(s[1..])
  }

  /** The environment-variable prefix of a service: upper-cased, then each
      hyphen turned into an underscore. */
  function EnvPrefix(service: string): string
  {
    ReplaceHyphens(Ascii.ToUpper(service))
  }

  /** What the prefix makes of one character of the service name. */
  function PrefixChar(c: char): char
  {
    if c == '-' then '_' else Ascii.UpperChar(c)
  }

  /** ReplaceHyphens keeps the length and rewrites only the hyphens. */
  lemma {:induction false} ReplaceHyphensPointwise(s: string)
    ensures |ReplaceHyphens(s)| == |s|
    ensures forall k :: 0 <= k < |s| ==> ReplaceHyphens(s)[k] == (if s[k] == '-' then '_' else s[k])
  {
    if |s| > 0 {
      ReplaceHyphensPointwise(s[1..]);
    }
  }

  /** The prefix has the service name's length; each position holds the
      upper-cased character, or '_' where the name has '-'; no '-' is left;
      and a character that is neither a lower-case ASCII letter nor '-' is
      copied unchanged. */
  lemma EnvPrefixPointwise(service: string)
    ensures |EnvPrefix(service)| == |service|
    ensures forall k :: 0 <= k < |service| ==> EnvPrefix(service)[k] == PrefixChar(service[k])
    ensures forall k :: 0 <= k < |service| ==> EnvPrefix(service)[k] != '-'
    ensures forall k :: 0 <= k < |service| && !Ascii.IsLower(service[k]) && service[k] != '-' ==>
              EnvPrefix(service)[k] == service[k]
  {
    Ascii.ToUpperPointwise(service);
    ReplaceHyphensPointwise(Ascii.ToUpper(service));
  }

  /** Two service names share their environment variables exactly when they
      agree position by position up to ASCII case and '-' versus '_'. */
  lemma SamePrefixIff(a: string, b: string)
    ensures EnvPrefix(a) == EnvPrefix(b) <==>
            |a| == |b| && forall k :: 0 <= k < |a| ==> PrefixChar(a[k]) == PrefixChar(b[k])
  {
    EnvPrefixPointwise(a);
    EnvPrefixPointwise(b);
    if |a| == |b| && forall k :: 0 <= k < |a| ==> PrefixChar(a[k]) == PrefixChar(b[k]) {
      assert forall k :: 0 <= k < |a| ==> EnvPrefix(a)[k] == EnvPrefix(b)[k];
    }
  }

  /** The prefix is the one string of the service name's length whose every
      position is PrefixChar of the name's character there. */
  lemma EnvPrefixIs(service: string, t: string)
    ensures EnvPrefix(service) == t <==>
            |t| == |service| && forall k :: 0 <= k < |service| ==> t[k] == PrefixChar(service[k])
  {
    EnvPrefixPointwise(service);
  }

  /** The worked example of the adapter's comment on the prefix. The name
      comes in as a parameter fixed by the precondition rather than written
      into the postcondition: with the literal there, the verifier unfolds
      the recursive upper-casing on it and runs out of resource. */
  lemma EnvPrefixExample(service: string, prefix: string)
    requires service == "transactional-email" && prefix == "TRANSACTIONAL_EMAIL"
    ensures EnvPrefix(service) == prefix
  {
    EnvPrefixIs(service, prefix);
    assert forall k :: 0 <= k < |service| ==> prefix[k] == PrefixChar(service[k]);
  }

  /** The variable that holds the service's base URL. */
  function UrlVariable(service: string): string
  {
    EnvPrefix(service) + "_SERVICE_URL"
  }

  /** The variable that holds the service's API key. */
  function ApiKeyVariable(service: string): string
  {
    EnvPrefix(service) + "_SERVICE_API_KEY"
  }

  /** The worked example of the adapter's header comment. The name is a
      parameter for the same reason as in EnvPrefixExample. */
  lemma VariableNamesExample(service: string)
    requires service == "stripe"
    ensures UrlVariable(service) == "STRIPE_SERVICE_URL"
    ensures ApiKeyVariable(service) == "STRIPE_SERVICE_API_KEY"
  {
    EnvPrefixIs(service, "STRIPE");
    assert forall k :: 0 <= k < |service| ==> "STRIPE"[k] == PrefixChar(service[k]);
  }

  /** JavaScript truthiness of an environment lookup: set and not empty. */
  predicate Truthy(v: Option<string>) {
    v.Some? && v.value != ""
  }

  /** True when the service's base URL is configured. */
  predicate Configured(env: Env, service: string) {
    Truthy(env(UrlVariable(service)))
  }

  /** The configuration error's message. */
  function ConfigMessage(service: string): string
  {
    "Missing env var: " + UrlVariable(service) + ". "
    + "Make sure the \"" + service + "\" service URL is configured on the Windmill worker."
  }

  /* ---------- Building the request ---------- */

  /** The query string after the path: '?' and the form-encoded entries when
      there is at least one entry, nothing otherwise. */
  function QueryString(query: Option<Query>): string
  {
    if query.Some? && |query.value| > 0 then "?" + FormUrlEncoded.Serialize(query.value) else ""
  }

  /** The request headers: always a JSON content type, and the API key
      header when a key is set and not empty. */
  function Headers(apiKey: Option<string>): map<string, string>
  {
    var headers := map["Content-Type" := "application/json"];
    if Truthy(apiKey) then headers["x-api-key" := apiKey.value] else headers
  }

  /** The methods whose requests carry the body. */
  const BodyMethods: seq<string> := ["POST", "PUT", "PATCH"]

  /** True when the upper-cased method is one of BodyMethods. */
  predicate SendsBody(verb: string) {
    Ascii.ToUpper(verb) in BodyMethods
  }

  /** The serialised body, attached only for the methods that carry one. */
  function RequestBody(stringify: Json.Value -> string, verb: string, body: Option<Body>): Option<string>
  {
    if body.Some? && SendsBody(verb) then Some(stringify(Json.Object(body.value))) else None
  }

  /** Resolves the service's configuration and builds the one request to
      send; fails with a configuration error when the base URL is unset or
      empty. */
  function BuildRequest(env: Env, stringify: Json.Value -> string, service: string, verb: string,
                        path: string, body: Option<Body>, query: Option<Query>): (r: Result<Request>)
    ensures r.Ok? || r.ConfigError?
    ensures r.Ok? <==> Configured(env, service)
    ensures r.Ok? ==> r.value.verb == verb
  {
    var baseUrl := env(UrlVariable(service));
    var apiKey := env(ApiKeyVariable(service));
    if !Truthy(baseUrl) then
      ConfigError(ConfigMessage(service))
    else
      Ok(Request(baseUrl.value + path + QueryString(query), verb, Headers(apiKey),
                 RequestBody(stringify, verb, body)))
  }

  /** Without a base URL the call fails with a message that names both the
      missing variable and the service. */
  lemma ConfigErrorNamesVariable(env: Env, stringify: Json.Value -> string, service: string, verb: string,
                                 path: string, body: Option<Body>, query: Option<Query>)
    requires !Configured(env, service)
    ensures var r := BuildRequest(env, stringify, service, verb, path, body, query);
            r.ConfigError? && Mentions(r.msg, UrlVariable(service)) && Mentions(r.msg, service)
  {
    var u := UrlVariable(service);
    var a := "Missing env var: ";
    var b := ". ";
    var c := "Make sure the \"";
    var d := "\" service URL is configured on the Windmill worker.";
    assert ConfigMessage(service) == a + u + b + c + service + d;
    MentionsSelf(u);
    MentionsInRight(a, u, u);
    MentionsInLeft(a + u, b, u);
    MentionsInLeft(a + u + b, c, u);
    MentionsInLeft(a + u + b + c, service, u);
    MentionsInLeft(a + u + b + c + service, d, u);
    MentionsSelf(service);
    MentionsInRight(a + u + b + c, service, service);
    MentionsInLeft(a + u + b + c + service, d, service);
  }

  /** The URL is the base URL and the path, concatenated as they are; a
      query with entries adds '?' and its form encoding, from which the
      entries read back in order; otherwise nothing is added. */
  lemma UrlAssembly(env: Env, stringify: Json.Value -> string, service: string, verb: string,
                    path: string, body: Option<Body>, query: Option<Query>)
    requires Configured(env, service)
    ensures var url := BuildRequest(env, stringify, service, verb, path, body, query).value.url;
            var base := env(UrlVariable(service)).value;
            && (query.None? || |query.value| == 0 ==> url == base + path)
            && (query.Some? && |query.value| > 0 ==>
                  && url == base + path + "?" + FormUrlEncoded.Serialize(query.value)
                  && url[|base + path|] == '?'
                  && |FormUrlEncoded.Serialize(query.value)| > 0
                  && FormUrlEncoded.Parse(url[|base + path| + 1..]) == Some(query.value))
  {
    var url := BuildRequest(env, stringify, service, verb, path, body, query).value.url;
    var base := env(UrlVariable(service)).value;
    if query.Some? && |query.value| > 0 {
      var q := FormUrlEncoded.Serialize(query.value);
      assert url == (base + path) + "?" + q;
      assert url[|base + path| + 1..] == q;
      FormUrlEncoded.ParseSerialize(query.value);
      FormUrlEncoded.SerializeEmptyIff(query.value);
    } else {
      assert url == base + path + "";
    }
  }

  /** The headers hold the JSON content type, hold x-api-key exactly when
      the key variable is set and not empty (and then hold that key), and
      hold nothing else. */
  lemma HeadersContract(env: Env, stringify: Json.Value -> string, service: string, verb: string,
                        path: string, body: Option<Body>, query: Option<Query>)
    requires Configured(env, service)
    ensures var h := BuildRequest(env, stringify, service, verb, path, body, query).value.headers;
            var key := env(ApiKeyVariable(service));
            && "Content-Type" in h && h["Content-Type"] == "application/json"
            && ("x-api-key" in h <==> key.Some? && key.value != "")
            && ("x-api-key" in h ==> h["x-api-key"] == key.value)
            && h.Keys <= {"Content-Type", "x-api-key"}
  {
  }

  /** The method names BodyMethods, up to ASCII case, in both directions. */
  lemma SendsBodyIff(verb: string)
    ensures SendsBody(verb) <==>
            Ascii.EqualsIgnoringCase(verb, "POST") || Ascii.EqualsIgnoringCase(verb, "PUT")
            || Ascii.EqualsIgnoringCase(verb, "PATCH")
  {
    Ascii.ToUpperEqualsIff(verb, "POST");
    Ascii.ToUpperEqualsIff(verb, "PUT");
    Ascii.ToUpperEqualsIff(verb, "PATCH");
  }

  /** A body is sent exactly when one is given and the method is POST, PUT
      or PATCH in any ASCII case; what is sent is the serialised body; the
      method goes out as the caller spelled it. */
  lemma BodyGating(env: Env, stringify: Json.Value -> string, service: string, verb: string,
                   path: string, body: Option<Body>, query: Option<Query>)
    requires Configured(env, service)
    ensures var req := BuildRequest(env, stringify, service, verb, path, body, query).value;
            && (req.body.Some? <==>
                  body.Some? && (Ascii.EqualsIgnoringCase(verb, "POST") || Ascii.EqualsIgnoringCase(verb, "PUT")
                                 || Ascii.EqualsIgnoringCase(verb, "PATCH")))
            && (req.body.Some? ==> req.body.value == stringify(Json.Object(body.value)))
            && req.verb == verb
  {
    SendsBodyIff(verb);
  }

  /** A GET never carries the body it is given. */
  lemma GetSendsNoBody(env: Env, stringify: Json.Value -> string, service: string,
                       path: string, body: Option<Body>, query: Option<Query>)
    requires Configured(env, service)
    ensures BuildRequest(env, stringify, service, "GET", path, body, query).value.body == None
  {
    SendsBodyIff("GET");
    assert !Ascii.EqualsIgnoringCase("GET", "POST") by {
      assert Ascii.UpperChar('G') != Ascii.UpperChar('P');
    }
    assert !Ascii.EqualsIgnoringCase("GET", "PATCH");
  }

  /* ---------- Interpreting the reply ---------- */

  /** An ok status in the sense of the Fetch Standard, section 2.2.3: 200 to
      299 inclusive. */
  predicate IsOkStatus(status: nat) {
    200 <= status <= 299
  }

  /** The remote error's message. */
  function RemoteMessage(verb: string, service: string, path: string, status: nat, text: string): string
  {
    verb + " " + service + path + " failed (" + Decimal.NatToString(status) + "): " + text
  }

  /** Normalises a reply that arrived: a status that is not ok is a remote
      error; otherwise the body text becomes a value and never an error. */
  function InterpretResponse(parse: string -> Option<Json.Value>, verb: string, service: string,
                             path: string, status: nat, text: string): (r: Result<Json.Value>)
    ensures r.Ok? || r.RemoteError?
    ensures r.RemoteError? <==> !IsOkStatus(status)
    ensures r.RemoteError? ==> r.status == status
  {
    if !IsOkStatus(status) then
      RemoteError(status, RemoteMessage(verb, service, path, status, text))
    else if text == "" then
      Ok(Json.EmptyObject)
    else
      match parse(text)
      case Some(v) => Ok(v)
      case None => Ok(Json.RawWrapper(text))
  }

  /** A status that is not ok gives an error that carries the status and
      whose message mentions the verb, the service and path, the status
      in decimal and the body text; no value is returned. */
  lemma RemoteErrorMessage(parse: string -> Option<Json.Value>, verb: string, service: string,
                           path: string, status: nat, text: string)
    requires !IsOkStatus(status)
    ensures var r := InterpretResponse(parse, verb, service, path, status, text);
            && r.RemoteError? && r.status == status
            && Mentions(r.msg, verb)
            && Mentions(r.msg, service + path)
            && Mentions(r.msg, Decimal.NatToString(status))
            && Mentions(r.msg, text)
  {
    var d := Decimal.NatToString(status);
    var sp := service + path;
    var m0 := verb + " ";
    var m1 := m0 + sp;
    var m2 := m1 + " failed (";
    var m3 := m2 + d;
    var m4 := m3 + "): ";
    assert RemoteMessage(verb, service, path, status, text) == m4 + text;
    MentionsSelf(verb);
    MentionsInLeft(verb, " ", verb);
    MentionsInLeft(m0, sp, verb);
    MentionsInLeft(m1, " failed (", verb);
    MentionsInLeft(m2, d, verb);
    MentionsInLeft(m3, "): ", verb);
    MentionsInLeft(m4, text, verb);
    MentionsSelf(sp);
    MentionsInRight(m0, sp, sp);
    MentionsInLeft(m1, " failed (", sp);
    MentionsInLeft(m2, d, sp);
    MentionsInLeft(m3, "): ", sp);
    MentionsInLeft(m4, text, sp);
    MentionsSelf(d);
    MentionsInRight(m2, d, d);
    MentionsInLeft(m3, "): ", d);
    MentionsInLeft(m4, text, d);
    MentionsSelf(text);
    MentionsInRight(m4, text, text);
  }

  /** On an ok status: empty text gives {}, text that parses gives the
      parsed value, any other text gives {raw: text}. */
  lemma OkResponseNormalised(parse: string -> Option<Json.Value>, verb: string, service: string,
                             path: string, status: nat, text: string)
    requires IsOkStatus(status)
    ensures var r := InterpretResponse(parse, verb, service, path, status, text);
            && r.Ok?
            && (text == "" ==> r.value == Json.EmptyObject)
            && (text != "" && parse(text).Some? ==> r.value == parse(text).value)
            && (text != "" && parse(text).None? ==> r.value == Json.RawWrapper(text))
  {
  }

  /** Status 204 with an empty body gives {}. */
  lemma NoContentGivesEmptyObject(parse: string -> Option<Json.Value>, verb: string, service: string, path: string)
    ensures InterpretResponse(parse, verb, service, path, 204, "") == Ok(Json.EmptyObject)
  {
  }

  /** Status 500 gives an error whose message shows "500" and the text. */
  lemma ServerErrorShowsStatus(parse: string -> Option<Json.Value>, verb: string, service: string,
                               path: string, text: string)
    ensures var r := InterpretResponse(parse, verb, service, path, 500, text);
            r.RemoteError? && r.status == 500 && Mentions(r.msg, "500") && Mentions(r.msg, text)
  {
    RemoteErrorMessage(parse, verb, service, path, 500, text);
    assert Decimal.NatToString(5) == "5";
    assert Decimal.NatToString(50) == "50";
    assert Decimal.NatToString(500) == "500";
  }

  /* ---------- The whole invocation ---------- */

  /** The only way the node reaches the network: fetch, together with the
      history of every request handed to it so far. */
  datatype Transport = Transport(fetch: Request -> Reply, sent: seq<Request>)

  /** Hands one request to fetch and records it in the history. */
  function Send(t: Transport, request: Request): (Transport, Reply)
  {
    (Transport(t.fetch, t.sent + [request]), t.fetch(request))
  }

  /** One invocation of the node: build the request, send it once when the
      configuration allows it, and normalise what comes back. The returned
      transport's history shows what was sent. */
  method Invoke(env: Env, stringify: Json.Value -> string, parse: string -> Option<Json.Value>,
                t: Transport, service: string, verb: string, path: string,
                body: Option<Body>, query: Option<Query>)
    returns (r: Result<Json.Value>, after: Transport)
    ensures after.fetch == t.fetch
    ensures !Configured(env, service) ==> after.sent == t.sent && r == ConfigError(ConfigMessage(service))
    ensures Configured(env, service) ==>
              var request := BuildRequest(env, stringify, service, verb, path, body, query).value;
              var reply := t.fetch(request);
              && after.sent == t.sent + [request]
              && (reply.NetworkFailure? ==> r == TransportError(reply.detail))
              && (reply.Response? ==>
                    r == InterpretResponse(parse, verb, service, path, reply.status, reply.text))
  {
    after := t;
    var request := BuildRequest(env, stringify, service, verb, path, body, query);
    if !request.Ok? {
      r := ConfigError(request.msg);
      return;
    }
    var sent := Send(after, request.value);
    after := sent.0;
    match sent.1 {
      case NetworkFailure(detail) =>
        r := TransportError(detail);
      case Response(status, text) =>
        r := InterpretResponse(parse, verb, service, path, status, text);
    }
  }
}
