# conn_checker: client-address echo service with CORS headers

This project models the server in `conn_checker/server.py`. It is a small
Starlette service that answers `GET /` with a JSON object of three things: the
caller's IP address, whether that address is IPv4 or IPv6, and a status. Its
middleware adds permissive CORS headers (`Access-Control-Allow-Origin`,
`-Methods` and `-Headers`, all `*`) to every response. These are the response
headers of the CORS protocol in section 3.2.3 of the WHATWG Fetch Standard.

The model has three parts.

- **Client address** (`server.dfy`, module `Server`). `GetClientIp` applies
  the header-precedence rule. When `X-Forwarded-For` is present, the result
  is its first comma-separated entry with the whitespace stripped. Otherwise
  it is `X-Real-IP`, returned verbatim. Otherwise it is the peer's host, or
  nothing. Python's `split(",")[0]` and `strip()` are written out as
  `FirstField` and `Strip`, each with a contract that characterises its
  result. `Strip` uses Python's whitespace set.
- **Response** (`server.dfy`). `DetectIpVersion` builds the JSON object. A
  missing or empty address becomes `0.0.0.0`. The address is labelled `ipv6`,
  `ipv4` or `Unknown`, and `status` is always `success`. The standard
  library's address parser is a parameter, `parse: string -> Option<Version>`,
  so the branching is proved for every parser.
- **CORS middleware** (`cors.dfy`, module `Cors`; `py_dict.dfy`, module
  `PyDict`). `send_wrapper` rewrites the header list of a
  `http.response.start` message in place.
  - The header list is turned into a Python `dict` and the three names are
    assigned.
  - The dict is written back as a list.
  - The message is then forwarded.
  - `PyDict` gives the dict an abstract value: its entries in insertion order.
    The mutable `Dict` class, which keeps entries plus a slot table the way
    CPython does, is proved against that value.
  - The lemmas describe the outcome directly in terms of the input list:
    - the last value of each name;
    - the order of first occurrence;
    - the CORS names bound to `*` and appended only when absent;
    - the empty case;
    - idempotence.
  - `Message` and `Transport` are classes. `SendWrapper` changes only the
    message's `headers` field and appends the message to the transport's
    trace. `Call` forwards every message the wrapped application emits,
    exactly once and in order.

## Model

| member | source | states |
|---|---|---|
| `Server.Lookup` | conn_checker/server.py:34-38 | A header lookup finds nothing exactly when no header has that name; otherwise it returns the value of the first header with that name |
| `Server.LookupIsGet` | conn_checker/server.py:34-38 | The header lookup equals `PyDict.Get` applied to the header list itself, which gives the value of the first pair with that name, or nothing. A `dict` built from the same pairs would hold the last value instead (see `PyDict.PutAllGet`) |
| `Server.FirstField` | conn_checker/server.py:36 | `split(",")[0]` is the longest comma-free prefix: it holds no comma, and it ends at the first comma or at the end of the value |
| `Server.StripStart` | conn_checker/server.py:36 | Removes exactly the leading whitespace: what is dropped is all whitespace and the rest does not start with whitespace |
| `Server.StripEnd` | conn_checker/server.py:36 | Removes exactly the trailing whitespace, symmetrically |
| `Server.Strip` | conn_checker/server.py:36 | `strip()` returns a slice of its input with only whitespace cut off on either side, and the slice neither starts nor ends with whitespace |
| `Server.StripBothEnds` | conn_checker/server.py:36 | Stripping the end of what `lstrip()` leaves cuts only whitespace off both sides of the original value, so the result sits in it at the offset where `lstrip()` stopped |
| `Server.GetClientIp` | conn_checker/server.py:32-40 | The client address is missing exactly when there is no `X-Forwarded-For`, no `X-Real-IP` and no peer |
| `Server.ForwardedForFirstHop` | conn_checker/server.py:34-36 | With `X-Forwarded-For` present, the address is its first comma-separated entry with surrounding whitespace stripped, and it contains no comma |
| `Server.ForwardedForWins` | conn_checker/server.py:34-38 | When `X-Forwarded-For` is present, `X-Real-IP` and the peer do not affect the result |
| `Server.RealIpVerbatim` | conn_checker/server.py:37-38 | Without `X-Forwarded-For`, a present `X-Real-IP` is the result unchanged, with no splitting or trimming |
| `Server.PeerFallback` | conn_checker/server.py:40 | Without either header, the result is the peer's host when there is a peer, and nothing otherwise |
| `Server.ReportedIp` | conn_checker/server.py:43 | The reported address is never empty: it is the client address when that is non-empty, and `0.0.0.0` when it is missing or empty |
| `Server.BlankForwardedForIsUnspecified` | conn_checker/server.py:34-43 | An `X-Forwarded-For` whose first entry is blank (an empty value, one starting with a comma, or a first entry made only of whitespace such as `" , 10.0.0.1"`) gives the empty address, which is reported as `0.0.0.0` whatever `X-Real-IP` and the peer say |
| `Server.VersionLabel` | conn_checker/server.py:45-49 | The label is one of `ipv4`, `ipv6`, `Unknown`: `ipv6` exactly when the parser yields 6, `ipv4` exactly when it yields 4, `Unknown` exactly when parsing fails |
| `Server.DetectIpVersion` | conn_checker/server.py:42-55 | The body has exactly the keys `client_ip`, `ip_version` and `status`, in that order. `client_ip` is exactly the reported address `get_client_ip(request) or "0.0.0.0"` (see `Server.ReportedIp`). `ip_version` follows the parser as above. `status` is `success` even when the version is `Unknown` |
| `PyDict.LastValue` | conn_checker/server.py:21 | The value a name takes in `dict(pairs)`: absent exactly when the name does not occur, otherwise the value of a pair with no later pair of that name |
| `PyDict.PutKeys` | conn_checker/server.py:22-24 | `d[k] = v` keeps names distinct, keeps an existing name in its place and appends a new one |
| `PyDict.PutGet` | conn_checker/server.py:22-24 | `d[k] = v` binds `k` to `v` and leaves every other binding as it was |
| `PyDict.PutUnchanged` | conn_checker/server.py:22-24 | Assigning a name the value it already has changes nothing |
| `PyDict.PutAllConcat` | conn_checker/server.py:21-24 | Building the dict and then assigning more pairs is the same as building it from the concatenated pairs |
| `PyDict.PutAllKeys` | conn_checker/server.py:21 | After `dict(pairs)` no name occurs twice, and the names are exactly those of the input |
| `PyDict.PutAllGet` | conn_checker/server.py:21 | After `dict(pairs)` each name carries its last input value |
| `PyDict.PutAllOrder` | conn_checker/server.py:21 | After `dict(pairs)` the names are in the order of their first occurrence in the input |
| `PyDict.PutAllDistinctKeys` | conn_checker/server.py:22-24 | Assigning pairs with distinct names appends, in order, only the names that were absent |
| `PyDict.FromPairsOfDistinct` | conn_checker/server.py:21-25 | A header list with no repeated name survives the list-to-dict-to-list round trip unchanged |
| `PyDict.FreshIn` | conn_checker/server.py:22-24 | The names that are appended together with those present are all the names assigned |
| `PyDict.FreshSameMembers` | conn_checker/server.py:22-24 | Which names count as absent depends only on which names are present |
| `PyDict.PrecedesSkipsRepeats` | conn_checker/server.py:22-24 | Assigning names that are already present does not affect the order |
| `PyDict.Dict.SlotsAgree` | conn_checker/server.py:21 | The dict's slot table locates each name at its one entry, so names are distinct |
| `PyDict.Dict.constructor` | conn_checker/server.py:21 | A new dict is empty |
| `PyDict.Dict.Set` | conn_checker/server.py:22-24 | In-place `d[k] = v` has the effect `Put` describes, and the table stays consistent |
| `PyDict.Dict.Update` | conn_checker/server.py:21 | Filling the dict from a list of pairs has the effect of assigning them in order |
| `PyDict.Dict.Items` | conn_checker/server.py:25 | The list comprehension over `items()` yields the entries in insertion order, with no name twice |
| `Cors.CorsNamesDistinct` | conn_checker/server.py:22-24 | The three CORS header names are distinct byte strings |
| `Cors.WithCorsIsUpdate` | conn_checker/server.py:21-24 | The three assignments are a dict update with the three CORS headers in order |
| `Cors.WithCorsIsFromPairs` | conn_checker/server.py:21-24 | The rewritten list is the dict of the input headers followed by the three CORS headers |
| `Cors.WithCorsAllowsAll` | conn_checker/server.py:22-25 | In the rewritten list, each of the three CORS names maps to `*`, and no name appears twice |
| `Cors.WithCorsKeepsOthers` | conn_checker/server.py:21-25 | Any other name is in the output exactly when it is in the input, and carries its last input value |
| `Cors.WithCorsLayout` | conn_checker/server.py:21-25 | Output names are the deduplicated input names followed only by the CORS names the input lacked, so a CORS name already present is overwritten in place |
| `Cors.WithCorsOrder` | conn_checker/server.py:21-25 | The output order is the order of first occurrence in the input, followed by the added CORS names |
| `Cors.WithCorsNoHeaders` | conn_checker/server.py:21-25 | A message with no headers gets exactly the three CORS headers |
| `Cors.WithCorsIdempotent` | conn_checker/server.py:21-25 | Rewriting an already rewritten header list changes nothing |
| `Cors.LastValueSuffix` | conn_checker/server.py:21-24 | The last value of a name in a concatenation comes from the second list whenever the name occurs there |
| `Cors.WrappedIdempotent` | conn_checker/server.py:20-25 | Passing a message through the wrapper twice leaves its headers as once |
| `Cors.Message.constructor` | conn_checker/server.py:18 | A message holds the given type, headers and other keys |
| `Cors.Transport.Send` | conn_checker/server.py:27 | `send` records the message after all those sent before |
| `Cors.SendWrapper` | conn_checker/server.py:18-27 | Only the message's `headers` can change. A start message gets the rewritten header list, with absent headers read as empty. Any other message keeps its headers. The message is forwarded exactly once, after everything already sent |
| `Cors.Call` | conn_checker/server.py:17-29 | Every message the application emits is forwarded exactly once, in the order emitted. Each start message ends up with the rewritten headers, and every other message is unchanged, even when a message object is emitted more than once, provided the application does not change it in between |

## Left out

- Cors.Call: takes the application not to change a message between handing it to `send_wrapper` and handing the same object over again; a message changed in between would be rewritten a second time from its new headers, which the contract (stated against the headers when `Call` starts) does not describe. The application's own code is not part of this model.
- `ipaddress.ip_address` is a parameter (`parse`). Its rules are not part of this model: dotted-quad IPv4, the IPv6 text forms of section 2.2 of RFC 4291, scope identifiers and leading zeros. The model proves the branching for every parser.
- Starlette's `Headers` is not part of this model. Lookup compares names exactly and returns the first match. This matches Starlette for the lower-case names an ASGI server delivers, but it does not lower-case the name it looks up. Latin-1 decoding of header bytes is not modelled: values are strings.
- ASGI plumbing is not modelled. This covers `async`/`await`, the `scope` and `receive` arguments, routing, and the application wiring at conn_checker/server.py:11 and 57-61. The wrapped application is foreign code, so `Call` receives the sequence of messages it sends. The server's `send` is the `Transport` trace.
- `JSONResponse` serialisation is not modelled: the JSON text, the content type and the status code 200. The response body is the ordered key/value list.
- `Message` stands for an ASGI message dictionary. It carries only `type`, `headers`, `status` and `body`. The other keys are never read by the middleware, and `SendWrapper`'s frame shows it cannot change them.
- A message without a `type` key would raise `KeyError`. ASGI guarantees the key, so the model always has a `kind`.
- The Next.js pages are rendering and clipboard UI, so they are not modelled: app/page.tsx, app/layout.tsx, app/connect/page.tsx and app/connect/ipv4/page.tsx.
- The health-check proxy app/api/check-dns/route.ts only relays an external service's answer or a fixed fallback object. It has no local decision logic, so it is not part of this model.
