# Lalamove API client: request marshalling and signing

This project models the core of `lalamove/client.py`, the `Client` class of a small Python client for the Lalamove delivery API:

- **Marshalling** (`Client._marshal_request`). A request payload is a dict, a slotted object or a namedtuple. It becomes an ordered, JSON-shaped mapping:
  - field names are renamed from snake_case to camelCase, except `en_SG`;
  - a `datetime` becomes whole epoch seconds;
  - an `Enum` member becomes its value;
  - an int, str, bool or float is copied;
  - a list becomes a list of marshalled elements;
  - anything else is marshalled recursively.
- **Signing** (`Client.calculate_hash`). The signing string `"{ts}\r\n{verb}\r\n{path}\r\n\r\n{body}"` is built and its HMAC-SHA256 taken. The result is formatted as the token `key:timestamp:hexdigest`.
- **The client façade**:
  - `base_url`, `verify_ssl` and the fixed `headers`;
  - what `get`, `post` and `_serialize_request` hand to the HTTP library.

The model has seven modules:

| module | contents |
|---|---|
| `Wrappers` | `Option` and `Result` |
| `OrderedDict` | a Python `dict` as an insertion-ordered association list; `d[k] = v` is `Put` |
| `Decimal` | `str(int)` and its inverse |
| `Hex` | bytes, 32-byte digests and `hexdigest()` |
| `Signer` | the signing string, the token and `calculate_hash` |
| `Marshal` | payloads, the specification functions of the marshaller, the imperative marshaller, and its properties |
| `HttpClient` | the client, the requests built by `get` and `post`, and the corrected variants |

The marshaller is modelled twice:

- as specification functions: `MarshalPayload`, `MarshalPrefix`, `ReadField`, `MarshalValue` and `MarshalElements`;
- as the imperative loop of the source: the mutually recursive methods `MarshalRequest`, `MarshalField` and `MarshalList`.

Each method is proved equal to its specification function. The properties are proved about the specification functions.

Python's reflection is replaced by what it would find. A `Payload` is either:

- a `Dict`: its entries, plus what `getattr` finds on it;
- an `Object`: its `__slots__` and `_fields`, each possibly absent, plus its attributes.

Each attribute value is tagged with the branch of the type dispatch that takes it.

Three external functions become parameters, so every property holds for any choice of them:

| source call | parameter | type |
|---|---|---|
| `snake_to_camel` | `camel` | `string -> string` |
| HMAC-SHA256 | `mac` | `(secret, message) -> Digest`, where `Digest` is 32 bytes |
| `json.dumps` | `dumps` | `Json -> string` |

The clock is the integer millisecond timestamp `ts`.

The model follows the code as written:

- The header is spelled `Content-type`, as in the code.
- `verify_ssl` is computed but never passed to `requests`.
- `get` and `post` build the `Authorization` header but do not send it. See Findings.
- Both branches of `base_url` name the sandbox host. See Findings.
- A dict payload is read through `getattr`, as the code does. So a dict fails on its first key that is not also an attribute of the dict object (`Marshal.DictKeyNotAttribute`), and a dict with ordinary keys does not marshal.
- The comment at lalamove/client.py:74-75 promises to skip attributes whose names start with `_` or `__`, and a namedtuple's `index` and `count`. The loop at lalamove/client.py:83-98 filters nothing, and neither does the model: every listed field is marshalled under its renamed key (`Marshal.NoFieldSkipped`), so `__slots__ = ("_token", "name")` sends `_token` (`Marshal.PrivateSlotMarshalled`). A namedtuple's `index` and `count` stay out only because `_fields` never lists them.

## Model

| member | source | states |
|---|---|---|
| OrderedDict.PutGet | lalamove/client.py:90-98 | after `marshalled[key] = value` the key maps to the value and every other key keeps its value |
| OrderedDict.PutKeys | lalamove/client.py:90-98 | assigning an existing key keeps the key order; a new key is appended last |
| OrderedDict.PutFresh | lalamove/client.py:90-98 | assigning a key the dict lacks appends exactly that entry and moves nothing |
| OrderedDict.PutDistinct | lalamove/client.py:90-98 | assignment never duplicates a key |
| OrderedDict.PutAllKeys | lalamove/client.py:73-98 | the dict built by a run of assignments has distinct keys, no more entries than assignments, and exactly the assigned keys |
| OrderedDict.PutAllGet | lalamove/client.py:73-98 | each key of that dict holds the last value assigned to it |
| OrderedDict.PutAllOrder | lalamove/client.py:73-98 | the keys come in the order of their first assignment |
| OrderedDict.PutAllSpec | lalamove/client.py:73-98 | all of the above together: distinct keys, exactly the assigned keys, ordered by first assignment, last value wins |
| OrderedDict.PutAllDistinct | lalamove/client.py:73-98 | when no key is assigned twice, the dict is the assignments themselves, in order |
| Decimal.NatToDecValue | lalamove/client.py:41-46 | the decimal digits of a natural number read back as that number |
| Decimal.ParseIntToDec | lalamove/client.py:41-46 | `str(ts)` parses back to `ts`, negative values included |
| Decimal.IntToDecInjective | lalamove/client.py:41-46 | distinct timestamps render as distinct strings |
| Hex.ParseHexDigest | lalamove/client.py:44 | `hexdigest()` is two lower-case hex digits per byte, high nibble first, and decodes back to the bytes |
| Signer.RawSignatureLayout | lalamove/client.py:41-42 | the signing string is 8 characters longer than the rendered timestamp, verb, path and body together, runs up to its first CR as the timestamp, ends with the body, and has `path\r\n\r\n` just before the body |
| Signer.RawSignatureInjective | lalamove/client.py:41-42 | for a fixed verb and path, the signing string determines both the timestamp and the body |
| Signer.Token | lalamove/client.py:46 | the token starts with `key:`, has a colon 65 characters from its end, ends with the 64 lower-case hex digits of the digest, and is 66 characters longer than the key and timestamp together |
| Signer.KeyColonIsLast | lalamove/client.py:46 | in `key:timestamp` the colon after the key is the last colon, because a timestamp contains none |
| Signer.ParseTokenRoundTrip | lalamove/client.py:46 | a token parses back, from the right, into its key (colons allowed), timestamp and digest |
| Signer.CalculateHash | lalamove/client.py:38-46 | the token carries the client's key, the timestamp `ts` and the HMAC under the secret of the signing string for `ts`, verb, path and body; its length, its key prefix and its hex suffix are fixed |
| Marshal.TruncSecondsTowardZero | lalamove/client.py:89-90 | `int(dt.timestamp())` truncates toward zero: whole seconds, never rounded away from zero, for either sign |
| Marshal.MarshalRequest | lalamove/client.py:68-99 | the in-place loop returns exactly the specified mapping or the specified first error |
| Marshal.MarshalField | lalamove/client.py:84-98 | one loop turn reads the attribute and dispatches on its type exactly as specified, raising on a missing attribute |
| Marshal.MarshalList | lalamove/client.py:95-96 | the list comprehension marshals each element as a payload; the first element that fails raises |
| Marshal.MarshalPrefixFailureSticks | lalamove/client.py:83-98 | once a field raises, the rest of the loop is not run and the error is the result |
| Marshal.MarshalElementsFailureSticks | lalamove/client.py:96 | once a list element raises, the comprehension's error is the result |
| Marshal.MarshalValueSucceedsIff | lalamove/client.py:89-98 | marshalling a value succeeds if and only if every list element is a payload and every nested payload is marshallable, whatever the renaming |
| Marshal.MarshalElementsSucceedsIff | lalamove/client.py:95-96 | a list marshals if and only if all its elements are marshallable payloads |
| Marshal.MarshalPayloadSucceedsIff | lalamove/client.py:68-99 | a payload marshals if and only if it has a field list and every field is an attribute with a marshallable value |
| Marshal.MarshalPrefixSucceedsIff | lalamove/client.py:83-98 | the first `n` loop turns succeed if and only if the first `n` fields are marshallable attributes |
| Marshal.MarshalPrefixFirstFailure | lalamove/client.py:83-98 | the loop raises the error of the first field that cannot be read or marshalled |
| Marshal.MarshalPrefixReadable | lalamove/client.py:83-98 | if every field reads, the loop completes |
| Marshal.MarshalFirstFailure | lalamove/client.py:68-99 | a payload whose first unreadable field is `k` fails with that field's error |
| Marshal.MarshalPrefixSuccessReadable | lalamove/client.py:83-98 | a loop that completes has read every field |
| Marshal.Assignments | lalamove/client.py:83-98 | the loop's assignments are one per field, keyed by the renamed field names in field order |
| Marshal.AssignmentsSnoc | lalamove/client.py:83-98 | the assignments made through one more field are those made before it, followed by that field's own assignment |
| Marshal.MarshalPrefixAssigns | lalamove/client.py:73-98 | the mapping built by the loop is the dict built by its assignments `marshalled[key] = value`, in field order |
| Marshal.MarshalLayout | lalamove/client.py:73-98 | a successful result: distinct keys; exactly the renamed field names; ordered by first occurrence; each field readable; each key holding the value of the last field renamed to it |
| Marshal.MarshalDistinctNames | lalamove/client.py:83-98 | when every field reads and no two fields share an output name, the result lists every field in order with its value |
| Marshal.Names | lalamove/client.py:85-88 | output names correspond one-to-one, in order, to the fields: `en_SG` unchanged, every other field renamed |
| Marshal.NoFieldSkipped | lalamove/client.py:83-98 | no listed field is filtered out: each one, private or not, appears in a successful result under its output key |
| Marshal.PrivateSlotMarshalled | lalamove/client.py:73-98 | an object with slots `_token` and `name` marshals to both, `_token` first, under their renamed keys |
| Marshal.VerbatimKept | lalamove/client.py:85-86 | a field `en_SG` always appears as the key `en_SG`, whatever the renaming |
| Marshal.MarshalElementsShape | lalamove/client.py:95-96 | a marshalled list has the same length and order as the source list, each element the object its payload marshals to |
| Marshal.MarshalPrefixReadsAttrs | lalamove/client.py:83-84 | the loop reads only attributes: payloads with equal attributes give equal results for the same field list |
| Marshal.DictEntriesUnread | lalamove/client.py:76-84 | a dict's values are never read, only its keys and its attributes; an empty dict gives an empty mapping |
| Marshal.DictKeyNotAttribute | lalamove/client.py:76-84 | a dict whose first key is not an attribute of the dict fails on that key |
| Marshal.SlotsOverrideFields | lalamove/client.py:79-80 | non-empty `__slots__` are used and `_fields` is never consulted |
| Marshal.EmptySlotsUseFields | lalamove/client.py:79-82 | empty `__slots__`, as on a namedtuple, defer to `_fields` |
| Marshal.MissingSchemaFails | lalamove/client.py:79-82 | an object without `__slots__` raises on `__slots__`; one with empty slots and no `_fields` raises on `_fields` |
| Marshal.ExampleItemsMarshal | lalamove/client.py:95-96 | a list holding one slotted object marshals to a list holding that object's mapping |
| Marshal.ExampleOrderFields | lalamove/client.py:84-98 | in an example order, a datetime at 1700000000.999999 s reads as 1700000000, an enum reads as its value and a list reads as nested objects |
| Marshal.ExampleOrderAssignments | lalamove/client.py:83-98 | the example order's loop assigns its six fields in order under their camelCase names, with `en_SG` unrenamed |
| Marshal.ExampleOrderMarshals | lalamove/client.py:68-99 | the example namedtuple-style order marshals to exactly the expected ordered mapping |
| HttpClient.DefaultClient | lalamove/client.py:18-20 | a client built without a mode keeps its credentials and is in sandbox mode, so it talks to the sandbox host |
| HttpClient.BaseUrl | lalamove/client.py:22-24 | the base URL is the sandbox host in either mode |
| HttpClient.BaseUrlIgnoresMode | lalamove/client.py:22-24 | sandbox and production clients share one URL |
| HttpClient.BaseUrlFor | lalamove/client.py:22-24 | with the production host given, each mode uses its own host |
| HttpClient.BaseUrlForSeparatesModes | lalamove/client.py:22-24 | given a distinct production host, the two modes never share a URL |
| HttpClient.VerifySsl | lalamove/client.py:26-28 | certificates are verified exactly when not in sandbox mode |
| HttpClient.Headers | lalamove/client.py:30-36 | the fixed headers are `Accept`, `Content-type` and `X-LLM-Market`, in that order, with the values `application/json`, `application/json; charset=utf-8` and `SG_SIN`; there is no `Authorization` |
| HttpClient.SignedHeaders | lalamove/client.py:50-58 | the local copy gains `Authorization` as a fourth key, holding `hmac ` plus the token; every other header is unchanged |
| HttpClient.GetCall | lalamove/client.py:48-52 | `get` sends `GET` to the base URL plus path with a fresh copy of the fixed headers, no body and no `verify`; the signed copy over the empty body stays local |
| HttpClient.SerializeRequest | lalamove/client.py:61-66 | serialisation succeeds if and only if the payload is marshallable; its value is `dumps` of the marshalled object |
| HttpClient.PostCall | lalamove/client.py:54-59 | `post` fails exactly when marshalling fails, with its error; otherwise it sends `POST` with the serialised body and no headers; the copy signed over that body stays local |
| HttpClient.AuthorizationAuthorizes | lalamove/client.py:51 | the header value is `hmac ` followed by a token that parses to the key, the timestamp and the HMAC of the signing string |
| HttpClient.PostSignsSentBody | lalamove/client.py:56-59 | `post` signs exactly the string it sends as the body |
| HttpClient.AuthorizationNeverSent | lalamove/client.py:48-59 | the signed header is built but neither request carries it, and neither passes `verify` |
| HttpClient.GetIgnoresSignature | lalamove/client.py:48-52 | what `get` sends is the same for every clock reading, MAC, credentials and mode |
| HttpClient.SignedGet | lalamove/client.py:48-52 | corrected `get`: sends `GET` to the base URL plus path, with no body, no `verify` argument and the signed header dict; it is the original request with only its headers replaced. Its `Authorization` signs `GET`, the path and the empty body; the other headers are unchanged |
| HttpClient.SignedPost | lalamove/client.py:54-59 | corrected `post`: fails exactly when marshalling fails, with its error. Otherwise it sends `POST` to the base URL plus path; the body is the serialised marshalled payload, no `verify` argument is passed, and only the headers differ from the original request; the headers are the dict whose `Authorization` signs `POST`, the path and that same body |

## Left out

- HTTP transport: `requests.get`/`requests.post` and the returned `Response` are not modelled. A call is described by the `Request` it hands over.
- The clock: `int(round(time.time() * 1000))` is the parameter `ts`. Float rounding of the clock reading is not modelled.
- HMAC-SHA256, and the UTF-8 encoding of the secret and message, are folded into the parameter `mac`. Only its 32-byte output length is assumed.
- `json.dumps` is the parameter `dumps`. The text it writes (separators, string escaping, float formatting such as `NaN`) is not modelled. Every marshalled key is a string, so serialisation has no failure case in the model.
- `snake_to_camel` comes from `lalamove/helpers`, which is not part of this model. It is the parameter `camel`, and the properties hold for any renaming.
- Python reflection (`isinstance`, `getattr`, `__slots__`, `_fields`) is replaced by the explicit `Payload` and `Value` datatypes. Reading an attribute that is absent raises `NoAttribute`.
- `Marshal.TruncSecondsTowardZero`: a datetime is an exact instant in microseconds since the epoch. Naive datetimes, the local time zone and the float precision of `timestamp()` are not modelled.
- Enum values are restricted to the scalar kinds (`Prim`). An enum whose value is a tuple or an object is not modelled.
- Floats are `real`. IEEE rounding and NaN are not modelled.
- A `__slots__` given as a single string rather than a sequence is not modelled.
- Cyclic payloads, and payloads nested deeper than Python's recursion limit, cannot be expressed: `Payload` and `Value` are finite trees. On such input the recursive calls at lalamove/client.py:96 and :98 raise `RecursionError`, which the model does not capture.
- Non-string dict keys cannot be expressed: `Entries<Value>` keys are strings. On such a key `getattr` at lalamove/client.py:84 raises `TypeError`, which the model does not capture.
- A dict is marshalled through `getattr`, as the code does, so only names found as attributes of the dict read successfully. Which names a real dict exposes (`__doc__`, `items`, ...) is given by the `attrs` map and not derived.
- A datetime, enum, scalar or list inside a list is assumed to have no `__slots__`, so marshalling it raises on `__slots__`. `None` and other objects are `Nested` payloads.
- The integer width of the timestamp is unbounded. Python integers do not wrap.

## Findings

| source | as written | input that shows it | evidently intended | confidence | as-written member | corrected member |
|---|---|---|---|---|---|---|
| lalamove/client.py:48-59 | the `Authorization` header is written into a local copy of the headers. `get` then sends a fresh `self.headers` and `post` sends no headers, so no request is authenticated | any call, e.g. `get("/v2/quotations")` | send the header dict that was signed: `headers=headers` on both calls | not executed | HttpClient.AuthorizationNeverSent | HttpClient.SignedGet |
| lalamove/client.py:54-59 | `post` computes a signature over its body but sends neither the signature nor any headers | `post("/v2/orders", {})` | send the body with the signed headers | not executed | HttpClient.AuthorizationNeverSent | HttpClient.SignedPost |
| lalamove/client.py:22-24 | both branches of `base_url` return the sandbox host, so a production client talks to the sandbox | `Client(creds, sandbox_mode=False).base_url` | a distinct production host when not in sandbox mode | not executed | HttpClient.BaseUrlIgnoresMode | HttpClient.BaseUrlFor |
