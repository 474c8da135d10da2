/**
  The CORS middleware of conn_checker/server.py (class `CORSMiddleware`).

  Every message the wrapped application sends goes through `send_wrapper`.
  It rewrites the header list of an `http.response.start` message. The list
  goes through a `dict`, the three `access-control-allow-*` names are set to
  `*`, and the dict is written back as a list. The message is then passed on
  unchanged in every other respect. Header names and values are ASGI byte
  strings, compared exactly: no case folding or other normalisation.
*/
module Cors {
  import opened Wrappers
  import opened PyDict

  type Byte = b: int | 0 <= b < 256
  type Bytes = seq<Byte>
  type Header = (Bytes, Bytes)

  /** The bytes of an ASCII string literal (`b"..."`). */
  function Ascii(s: string): Bytes
    requires forall i | 0 <= i < |s| :: s[i] as int < 128
  {
    seq(|s|, i requires 0 <= i < |s| => s[i] as int)
  }

  const HTTP_RESPONSE_START := "http.response.start"
  const ALLOW_ORIGIN := Ascii("access-control-allow-origin")
  const ALLOW_METHODS := Ascii("access-control-allow-methods")
  const ALLOW_HEADERS := Ascii("access-control-allow-headers")
  const WILDCARD := Ascii("*")

  /** The three headers the middleware sets, in the order it sets them. */
  const CORS_HEADERS: seq<Header> := [(ALLOW_ORIGIN, WILDCARD), (ALLOW_METHODS, WILDCARD), (ALLOW_HEADERS, WILDCARD)]

  predicate IsCorsName(name: Bytes) {
    name == ALLOW_ORIGIN || name == ALLOW_METHODS || name == ALLOW_HEADERS
  }

  /** The header list `send_wrapper` writes back for the header list `headers`. */
  function WithCors(headers: seq<Header>): seq<Header> {
    var d := FromPairs(headers);
    Put(Put(Put(d, ALLOW_ORIGIN, WILDCARD), ALLOW_METHODS, WILDCARD), ALLOW_HEADERS, WILDCARD)
  }

  /** The CORS names that `headers` does not already carry, in the order the
      middleware sets them. */
  function AddedCorsNames(headers: seq<Header>): seq<Bytes> {
    Fresh(Keys(headers), Keys(CORS_HEADERS))
  }

  // ---------------------------------------------------------------------------
  // The rewrite of one header list

  lemma CorsNamesDistinct()
    ensures ALLOW_ORIGIN != ALLOW_METHODS && ALLOW_ORIGIN != ALLOW_HEADERS && ALLOW_METHODS != ALLOW_HEADERS
    ensures Keys(CORS_HEADERS) == [ALLOW_ORIGIN, ALLOW_METHODS, ALLOW_HEADERS]
    ensures Distinct(Keys(CORS_HEADERS))
  {
    assert |ALLOW_ORIGIN| != |ALLOW_METHODS| && |ALLOW_ORIGIN| != |ALLOW_HEADERS|;
    assert ALLOW_METHODS[21] != ALLOW_HEADERS[21];
  }

  /** Setting the three names after `dict(headers)` is the same as building
      the dict from `headers` followed by the three CORS headers. */
  lemma WithCorsIsFromPairs(headers: seq<Header>)
    ensures WithCors(headers) == FromPairs(headers + CORS_HEADERS)
  {
    PutAllConcat([], headers, CORS_HEADERS);
    WithCorsIsUpdate(headers);
  }

  lemma WithCorsIsUpdate(headers: seq<Header>)
    ensures WithCors(headers) == PutAll(FromPairs(headers), CORS_HEADERS)
  {
    var d := FromPairs(headers);
    assert CORS_HEADERS[..2][..1] == [(ALLOW_ORIGIN, WILDCARD)];
    assert [(ALLOW_ORIGIN, WILDCARD)][..0] == [];
    assert PutAll(d, CORS_HEADERS[..2][..1]) == Put(d, ALLOW_ORIGIN, WILDCARD);
  }

  /** Each CORS name is bound to `*` in the output, and no name occurs twice. */
  lemma {:induction false} WithCorsAllowsAll(headers: seq<Header>, name: Bytes)
    requires IsCorsName(name)
    ensures Distinct(Keys(WithCors(headers)))
    ensures Get(WithCors(headers), name) == Some(WILDCARD)
  {
    WithCorsIsFromPairs(headers);
    PutAllKeys([], headers + CORS_HEADERS);
    PutAllGet([], headers + CORS_HEADERS, name);
    KeysConcat(headers, CORS_HEADERS);
    CorsNamesDistinct();
    LastValueSuffix(headers, CORS_HEADERS, name);
  }

  /** Every other name is present in the output exactly when it is present in
      the input, and then carries the value of its last occurrence. */
  lemma {:induction false} WithCorsKeepsOthers(headers: seq<Header>, name: Bytes)
    requires !IsCorsName(name)
    ensures name in Keys(WithCors(headers)) <==> name in Keys(headers)
    ensures Get(WithCors(headers), name) == LastValue(headers, name)
  {
    WithCorsIsFromPairs(headers);
    PutAllKeys([], headers + CORS_HEADERS);
    PutAllGet([], headers + CORS_HEADERS, name);
    KeysConcat(headers, CORS_HEADERS);
    CorsNamesDistinct();
    LastValueSuffix(headers, CORS_HEADERS, name);
  }

  /** The output names are the names of `dict(headers)` followed by the CORS
      names the input lacked: a CORS name already present keeps its place and
      only its value changes. */
  lemma WithCorsLayout(headers: seq<Header>)
    ensures Keys(WithCors(headers)) == Keys(FromPairs(headers)) + AddedCorsNames(headers)
  {
    PutAllKeys([], headers);
    CorsNamesDistinct();
    WithCorsIsUpdate(headers);
    PutAllDistinctKeys(FromPairs(headers), CORS_HEADERS);
    FreshSameMembers(Keys(FromPairs(headers)), Keys(headers), Keys(CORS_HEADERS));
  }

  /** The output names come in the order of their first occurrence in the
      input, and the added CORS names come after all of them. */
  lemma {:induction false} WithCorsOrder(headers: seq<Header>, a: Bytes, b: Bytes)
    ensures Precedes(Keys(WithCors(headers)), a, b) <==> Precedes(Keys(headers) + AddedCorsNames(headers), a, b)
  {
    CorsNamesDistinct();
    WithCorsIsFromPairs(headers);
    PutAllOrder([], headers + CORS_HEADERS, a, b);
    KeysConcat(headers, CORS_HEADERS);
    assert [] + Keys(headers + CORS_HEADERS) == Keys(headers) + Keys(CORS_HEADERS);
    PrecedesSkipsRepeats(Keys(headers), Keys(CORS_HEADERS), a, b);
  }

  /** A message without headers gets exactly the three CORS headers. */
  lemma WithCorsNoHeaders()
    ensures WithCors([]) == CORS_HEADERS
  {
    CorsNamesDistinct();
    WithCorsIsFromPairs([]);
    assert [] + CORS_HEADERS == CORS_HEADERS;
    FromPairsOfDistinct(CORS_HEADERS);
  }

  /** Rewriting an already rewritten header list changes nothing. */
  lemma WithCorsIdempotent(headers: seq<Header>)
    ensures WithCors(WithCors(headers)) == WithCors(headers)
  {
    var out := WithCors(headers);
    WithCorsAllowsAll(headers, ALLOW_ORIGIN);
    WithCorsAllowsAll(headers, ALLOW_METHODS);
    WithCorsAllowsAll(headers, ALLOW_HEADERS);
    FromPairsOfDistinct(out);
    PutUnchanged(out, ALLOW_ORIGIN, WILDCARD);
    PutUnchanged(out, ALLOW_METHODS, WILDCARD);
    PutUnchanged(out, ALLOW_HEADERS, WILDCARD);
  }

  // ---------------------------------------------------------------------------
  // Messages and the wrapper around `send`

  /** An ASGI message, a dictionary the middleware updates in place. `kind`
      is its `type` key; `headers` is absent on messages that have none;
      `status` and `body` stand for the remaining keys, which the middleware
      never reads. */
  class Message {
    var kind: string
    var headers: Option<seq<Header>>
    var status: int
    var body: Bytes

    constructor (kind: string, headers: Option<seq<Header>>, status: int, body: Bytes)
      ensures this.kind == kind && this.headers == headers
      ensures this.status == status && this.body == body
    {
      this.kind := kind;
      this.headers := headers;
      this.status := status;
      this.body := body;
    }
  }

  /** The server's `send` callable, seen through the messages it has been
      handed, in order. */
  class Transport {
    var sent: seq<Message>

    constructor ()
      ensures sent == []
    {
      sent := [];
    }

    method Send(message: Message)
      modifies this
      ensures sent == old(sent) + [message]
    {
      sent := sent + [message];
    }
  }

  /** The headers a message of type `kind` carries after `send_wrapper`. */
  function Wrapped(kind: string, headers: Option<seq<Header>>): Option<seq<Header>> {
    if kind == HTTP_RESPONSE_START then Some(WithCors(headers.GetOr([]))) else headers
  }

  /** Passing a message through `send_wrapper` a second time leaves its headers as they are. */
  lemma WrappedIdempotent(kind: string, headers: Option<seq<Header>>)
    ensures Wrapped(kind, Wrapped(kind, headers)) == Wrapped(kind, headers)
  {
    if kind == HTTP_RESPONSE_START {
      WithCorsIdempotent(headers.GetOr([]));
    }
  }

  /** `send_wrapper(message)`: a start message gets its header list rewritten
      through a dict; every message, rewritten or not, is then forwarded once.
      Only the message's `headers` can change. */
  method SendWrapper(message: Message, send: Transport)
    modifies message`headers, send
    ensures send.sent == old(send.sent) + [message]
    ensures message.headers == Wrapped(message.kind, old(message.headers))
  {
    if message.kind == HTTP_RESPONSE_START {
      var headers := new Dict();
      headers.Update(message.headers.GetOr([]));
      headers.Set(ALLOW_ORIGIN, WILDCARD);
      headers.Set(ALLOW_METHODS, WILDCARD);
      headers.Set(ALLOW_HEADERS, WILDCARD);
      var items := headers.Items();
      message.headers := Some(items);
    }
    send.Send(message);
  }

  /** `CORSMiddleware.__call__`: the wrapped application runs with
      `send_wrapper` in place of `send`. The application is not part of this
      model; `emitted` is the sequence of messages it passes to `send_wrapper`.
      Every one is forwarded exactly once, in the order emitted, and the
      start messages carry the rewritten headers. A message object emitted
      twice is rewritten twice, which is the same as once. */
  method Call(emitted: seq<Message>, send: Transport)
    modifies emitted`headers, send
    ensures send.sent == old(send.sent) + emitted
    ensures forall m | m in emitted :: m.headers == Wrapped(m.kind, old(m.headers))
  {
    for n := 0 to |emitted|
      invariant send.sent == old(send.sent) + emitted[..n]
      invariant forall m | m in emitted && m !in emitted[..n] :: m.headers == old(m.headers)
      invariant forall m | m in emitted[..n] :: m.headers == Wrapped(m.kind, old(m.headers))
    {
      var message := emitted[n];
      WrappedIdempotent(message.kind, old(message.headers));
      SendWrapper(message, send);
      assert emitted[..n + 1] == emitted[..n] + [message];
    }
    assert emitted[..|emitted|] == emitted;
  }

  // ---------------------------------------------------------------------------
  // Helpers on lists of pairs

  /** The last occurrence of a key of `b` in `a + b` lies in `b`. */
  lemma {:induction false} LastValueSuffix<K, V>(a: seq<(K, V)>, b: seq<(K, V)>, k: K)
    ensures LastValue(a + b, k) == if k in Keys(b) then LastValue(b, k) else LastValue(a, k)
    decreases |b|
  {
    if b == [] {
      assert a + b == a;
    } else {
      var n := |b| - 1;
      assert (a + b)[..|a + b| - 1] == a + b[..n];
      KeysAppend(b[..n], b[n]);
      assert b[..n] + [b[n]] == b;
      LastValueSuffix(a, b[..n], k);
    }
  }
}
