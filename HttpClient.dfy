/**
 * The client façade (`class Client`): the target host, the TLS flag, the
 * fixed header set and what `get` and `post` hand to the HTTP library.
 *
 * A call is described, not performed: `Call` holds the request passed to
 * `requests.get`/`requests.post` together with the header dict that the
 * method built and signed locally. The client's fields are set once by the
 * constructor and never change, so a client is a value.
 */
module HttpClient {
  import opened Wrappers
  import opened OrderedDict
  import opened Signer
  import opened Marshal

  /** `Client(credentials, sandbox_mode)`: credentials are `(key, secret)`. */
  datatype Client = Client(credentials: (string, string), sandboxMode: bool)

  /** `Client(credentials)`: the constructor's default mode is the sandbox. */
  function DefaultClient(credentials: (string, string)): (c: Client)
    ensures c.credentials == credentials && c.sandboxMode
    ensures BaseUrl(c) == SandboxHost
  {
    Client(credentials, true)
  }

  const SandboxHost: string := "https://rest.sandbox.lalamove.com"

  /** A request as handed to the HTTP library; `None` marks a keyword argument that is not passed. */
  datatype Request = Request(
    verb: string,
    url: string,
    headers: Option<Entries<string>>,
    data: Option<string>,
    verify: Option<bool>)

  /** What a call hands to the HTTP library, and the signed header dict it built on the side. */
  datatype Call = Call(request: Request, localHeaders: Entries<string>)

  /** `Client.base_url`: both branches name the sandbox host. */
  function BaseUrl(c: Client): (url: string)
    ensures url == SandboxHost
  {
    if c.sandboxMode then "https://rest.sandbox.lalamove.com" else "https://rest.sandbox.lalamove.com"
  }

  /** The mode flag never reaches the URL: sandbox and production clients talk to the same host. */
  lemma BaseUrlIgnoresMode(credentials: (string, string))
    ensures BaseUrl(Client(credentials, false)) == BaseUrl(Client(credentials, true))
  {
  }

  /** The base URL with the production host given: each mode talks to its own host. */
  function BaseUrlFor(c: Client, productionHost: string): (url: string)
    ensures c.sandboxMode ==> url == SandboxHost
    ensures !c.sandboxMode ==> url == productionHost
  {
    if c.sandboxMode then SandboxHost else productionHost
  }

  /** With a production host distinct from the sandbox one, the two modes never share a URL. */
  lemma BaseUrlForSeparatesModes(credentials: (string, string), productionHost: string)
    requires productionHost != SandboxHost
    ensures BaseUrlFor(Client(credentials, false), productionHost) != BaseUrlFor(Client(credentials, true), productionHost)
  {
  }

  /**
   * `Client.verify_ssl`: certificates are to be checked in production mode
   * only. Neither `get` nor `post` passes this flag on: every request leaves
   * `verify` unset (see `AuthorizationNeverSent`).
   */
  function VerifySsl(c: Client): (verify: bool)
    ensures verify <==> !c.sandboxMode
  {
    !c.sandboxMode
  }

  /** `Client.headers`: a fresh dict of three fixed entries on every access. */
  function Headers(c: Client): (h: Entries<string>)
    ensures Keys(h) == ["Accept", "Content-type", "X-LLM-Market"]
    ensures Get(h, "Accept") == Some("application/json")
    ensures Get(h, "Content-type") == Some("application/json; charset=utf-8")
    ensures Get(h, "X-LLM-Market") == Some("SG_SIN")
    ensures Get(h, "Authorization") == None
  {
    [("Accept", "application/json"),
     ("Content-type", "application/json; charset=utf-8"),
     ("X-LLM-Market", "SG_SIN")]
  }

  /** `'hmac ' + self.calculate_hash(body, verb, path)` at millisecond time `ts`. */
  function Authorization(c: Client, ts: int, mac: Mac, body: string, verb: string, path: string): string {
    "hmac " + CalculateHash(c.credentials.0, c.credentials.1, ts, mac, body, verb, path)
  }

  /** The local `headers` dict after `headers['Authorization'] = ...`. */
  function SignedHeaders(c: Client, ts: int, mac: Mac, body: string, verb: string, path: string): (h: Entries<string>)
    ensures Keys(h) == Keys(Headers(c)) + ["Authorization"]
    ensures Get(h, "Authorization") == Some(Authorization(c, ts, mac, body, verb, path))
    ensures forall name :: name != "Authorization" ==> Get(h, name) == Get(Headers(c), name)
  {
    var auth := Authorization(c, ts, mac, body, verb, path);
    PutGet(Headers(c), "Authorization", auth);
    PutKeys(Headers(c), "Authorization", auth);
    Put(Headers(c), "Authorization", auth)
  }

  /**
   * `Client.get(url_path)`: signs an empty body, writes the token into a
   * local copy of the headers, then sends a fresh `self.headers`.
   */
  function GetCall(c: Client, path: string, ts: int, mac: Mac): (call: Call)
    ensures call.request == Request("GET", SandboxHost + path, Some(Headers(c)), None, None)
    ensures call.localHeaders == SignedHeaders(c, ts, mac, "", "GET", path)
  {
    var url := BaseUrl(c) + path;
    var headers := SignedHeaders(c, ts, mac, "", "GET", path);
    Call(Request("GET", url, Some(Headers(c)), None, None), headers)
  }

  /** `Client._serialize_request`: `json.dumps` (the parameter `dumps`) of the marshalled payload. */
  function SerializeRequest(payload: Payload, camel: Camel, dumps: Json -> string): (r: Result<string, Error>)
    ensures r.Success? <==> MarshalPayload(payload, camel).Success?
    ensures r.Success? <==> PayloadMarshallable(payload)
    ensures r.Success? ==> r.value == dumps(JObject(MarshalPayload(payload, camel).value))
  {
    MarshalPayloadSucceedsIff(payload, camel);
    match MarshalPayload(payload, camel)
    case Failure(e) => Failure(e)
    case Success(m) => Success(dumps(JObject(m)))
  }

  /**
   * `Client.post(url_path, payload)`: serialises the payload (raising if it
   * cannot be marshalled), signs that body into a local copy of the headers,
   * then sends the body with no headers at all.
   */
  function PostCall(c: Client, path: string, payload: Payload, camel: Camel, dumps: Json -> string,
                    ts: int, mac: Mac): (r: Result<Call, Error>)
    ensures r.Success? <==> PayloadMarshallable(payload)
    ensures r.Success? <==> MarshalPayload(payload, camel).Success?
    ensures r.Failure? ==> r.error == MarshalPayload(payload, camel).error
    ensures r.Success? ==>
      var body := SerializeRequest(payload, camel, dumps).value;
      && r.value.request == Request("POST", SandboxHost + path, None, Some(body), None)
      && r.value.localHeaders == SignedHeaders(c, ts, mac, body, "POST", path)
  {
    var url := BaseUrl(c) + path;
    match SerializeRequest(payload, camel, dumps)
    case Failure(e) => Failure(e)
    case Success(body) =>
      var headers := SignedHeaders(c, ts, mac, body, "POST", path);
      Success(Call(Request("POST", url, None, Some(body), None), headers))
  }

  /**
   * The header computed for a request is a token over exactly what is sent:
   * the client's key, the timestamp, and the HMAC under its secret of the
   * signing string for that verb, path and body.
   */
  ghost predicate AuthorizesFor(header: string, c: Client, ts: int, mac: Mac, verb: string, path: string, body: string) {
    && |header| >= 5
    && header[..5] == "hmac "
    && ParseToken(header[5..]) ==
         Some(TokenParts(c.credentials.0, ts, mac(c.credentials.1, RawSignature(ts, verb, path, body))))
  }

  lemma AuthorizationAuthorizes(c: Client, ts: int, mac: Mac, body: string, verb: string, path: string)
    ensures AuthorizesFor(Authorization(c, ts, mac, body, verb, path), c, ts, mac, verb, path, body)
  {
    var token := CalculateHash(c.credentials.0, c.credentials.1, ts, mac, body, verb, path);
    assert ("hmac " + token)[5..] == token;
  }

  /** `post` signs the very string it sends as its body. */
  lemma PostSignsSentBody(c: Client, path: string, payload: Payload, camel: Camel, dumps: Json -> string,
                          ts: int, mac: Mac)
    requires PostCall(c, path, payload, camel, dumps, ts, mac).Success?
    ensures var call := PostCall(c, path, payload, camel, dumps, ts, mac).value;
      && call.request.data.Some?
      && Get(call.localHeaders, "Authorization").Some?
      && AuthorizesFor(Get(call.localHeaders, "Authorization").value, c, ts, mac, "POST", path, call.request.data.value)
  {
    var body := SerializeRequest(payload, camel, dumps).value;
    AuthorizationAuthorizes(c, ts, mac, body, "POST", path);
  }

  /**
   * The header dict that carries the token is never sent: `get` sends a
   * fresh copy of the fixed headers and `post` sends no headers, so neither
   * request is authenticated; nor is `verify_ssl` ever passed on.
   */
  lemma AuthorizationNeverSent(c: Client, path: string, payload: Payload, camel: Camel, dumps: Json -> string,
                               ts: int, mac: Mac)
    ensures var get := GetCall(c, path, ts, mac);
      && Get(get.localHeaders, "Authorization").Some?
      && get.request.headers.Some?
      && Get(get.request.headers.value, "Authorization") == None
      && get.request.verify == None
    ensures var post := PostCall(c, path, payload, camel, dumps, ts, mac);
      post.Success? ==>
        && Get(post.value.localHeaders, "Authorization").Some?
        && post.value.request.headers == None
        && post.value.request.verify == None
  {
  }

  /**
   * What `get` sends does not depend on the clock, the MAC, the credentials
   * or the mode at all: any two clients send the same request for a path.
   */
  lemma GetIgnoresSignature(c: Client, path: string, ts: int, mac: Mac, c': Client, ts': int, mac': Mac)
    ensures GetCall(c, path, ts, mac).request == GetCall(c', path, ts', mac').request
  {
  }

  // ---------------------------------------------------------------------------
  // Requests that carry the header they sign

  /** `get` sending the header dict it signed. */
  function SignedGet(c: Client, path: string, ts: int, mac: Mac): (r: Request)
    ensures r.verb == "GET" && r.url == BaseUrl(c) + path && r.data == None && r.verify == None
    ensures r.headers == Some(SignedHeaders(c, ts, mac, "", "GET", path))
    ensures r == GetCall(c, path, ts, mac).request.(headers := Some(GetCall(c, path, ts, mac).localHeaders))
    ensures r.headers.Some? && Get(r.headers.value, "Authorization").Some?
    ensures AuthorizesFor(Get(r.headers.value, "Authorization").value, c, ts, mac, "GET", path, "")
    ensures forall name :: name != "Authorization" ==> Get(r.headers.value, name) == Get(Headers(c), name)
  {
    AuthorizationAuthorizes(c, ts, mac, "", "GET", path);
    var call := GetCall(c, path, ts, mac);
    Request("GET", call.request.url, Some(call.localHeaders), None, None)
  }

  /** `post` sending, with its body, the header dict that signs that body. */
  function SignedPost(c: Client, path: string, payload: Payload, camel: Camel, dumps: Json -> string,
                      ts: int, mac: Mac): (r: Result<Request, Error>)
    ensures r.Success? <==> PayloadMarshallable(payload)
    ensures r.Success? <==> MarshalPayload(payload, camel).Success?
    ensures r.Failure? ==> r.error == MarshalPayload(payload, camel).error
    ensures r.Success? ==>
      && r.value.verb == "POST"
      && r.value.url == BaseUrl(c) + path
      && r.value.data == Some(SerializeRequest(payload, camel, dumps).value)
      && r.value.headers == Some(SignedHeaders(c, ts, mac, r.value.data.value, "POST", path))
      && r.value.verify == None
    ensures r.Success? ==>
      var call := PostCall(c, path, payload, camel, dumps, ts, mac).value;
      r.value == call.request.(headers := Some(call.localHeaders))
    ensures r.Success? ==>
      && r.value.data.Some? && r.value.headers.Some?
      && Get(r.value.headers.value, "Authorization").Some?
      && AuthorizesFor(Get(r.value.headers.value, "Authorization").value, c, ts, mac, "POST", path, r.value.data.value)
  {
    match PostCall(c, path, payload, camel, dumps, ts, mac)
    case Failure(e) => Failure(e)
    case Success(call) =>
      PostSignsSentBody(c, path, payload, camel, dumps, ts, mac);
      Success(Request("POST", call.request.url, Some(call.localHeaders), call.request.data, None))
  }
}
