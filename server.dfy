/**
  The request handler of conn_checker/server.py: which address the caller is
  taken to have (`get_client_ip`), and the JSON object `detect_ip_version`
  answers with.

  Headers are the request's (name, value) pairs in arrival order, as the
  server delivers them (names in lower case). Looking a name up returns the
  value of its first occurrence. The standard-library address parser
  (`ipaddress.ip_address`) is not modelled: it is the parameter `parse`,
  which yields the version of the address or fails.
*/
module Server {
  import opened Wrappers
  import PyDict

  datatype Address = Address(host: string, port: int)

  /** What the handler reads of a request: its headers and, when the server
      knows it, the peer address of the connection. */
  datatype Request = Request(headers: seq<(string, string)>, client: Option<Address>)

  /** The version an address parses as. */
  type Version = v: int | v == 4 || v == 6 witness 4

  /** A JSON object: its (key, value) pairs in order. */
  type JsonObject = seq<(string, string)>

  const FORWARDED_FOR := "x-forwarded-for"
  const REAL_IP := "x-real-ip"
  const UNSPECIFIED_ADDRESS := "0.0.0.0"

  // ---------------------------------------------------------------------------
  // Strings

  /** `c.isspace()`: the characters Python treats as whitespace. */
  predicate IsSpace(c: char) {
    var n := c as int;
    || 9 <= n <= 13 || 28 <= n <= 32 || n == 0x85 || n == 0xA0 || n == 0x1680
    || 0x2000 <= n <= 0x200A || n == 0x2028 || n == 0x2029 || n == 0x202F
    || n == 0x205F || n == 0x3000
  }

  predicate AllSpace(s: string) {
    forall i | 0 <= i < |s| :: IsSpace(s[i])
  }

  /** `r` is `s` with `i` whitespace characters cut off at the start and only
      whitespace cut off at the end. */
  predicate StrippedAt(s: string, r: string, i: nat) {
    i + |r| <= |s| && s[i..i + |r|] == r && AllSpace(s[..i]) && AllSpace(s[i + |r|..])
  }

  /** `r` is `s` with all leading and trailing whitespace removed. */
  predicate IsStripped(s: string, r: string) {
    && (exists i: nat | i <= |s| :: StrippedAt(s, r, i))
    && (r == [] || (!IsSpace(r[0]) && !IsSpace(r[|r| - 1])))
  }

  /** `s.split(",")[0]`: the text before the first comma, or all of `s`. */
  function FirstField(s: string): (r: string)
    ensures |r| <= |s| && r == s[..|r|]
    ensures ',' !in r
    ensures |r| == |s| || s[|r|] == ','
  {
    if s == [] || s[0] == ',' then []
    else [s[0]] + FirstField(s[1..])
  }

  /** `s.lstrip()` */
  function StripStart(s: string): (r: string)
    ensures |r| <= |s| && r == s[|s| - |r|..]
    ensures AllSpace(s[..|s| - |r|])
    ensures r == [] || !IsSpace(r[0])
  {
    if s != [] && IsSpace(s[0]) then
      var r := StripStart(s[1..]);
      assert s[..|s| - |r|] == [s[0]] + s[1..][..|s| - 1 - |r|];
      r
    else s
  }

  /** `s.rstrip()` */
  function StripEnd(s: string): (r: string)
    ensures |r| <= |s| && r == s[..|r|]
    ensures AllSpace(s[|r|..])
    ensures r == [] || !IsSpace(r[|r| - 1])
  {
    if s != [] && IsSpace(s[|s| - 1]) then
      var r := StripEnd(s[..|s| - 1]);
      assert s[|r|..] == s[..|s| - 1][|r|..] + [s[|s| - 1]];
      r
    else s
  }

  /** `s.strip()` */
  function Strip(s: string): (r: string)
    ensures IsStripped(s, r)
  {
    var left := StripStart(s);
    var r := StripEnd(left);
    StripBothEnds(s, left, r);
    r
  }

  /** Cutting whitespace off the end of what is left after cutting it off the
      start strips both ends. */
  lemma StripBothEnds(s: string, left: string, r: string)
    requires |left| <= |s| && left == s[|s| - |left|..] && AllSpace(s[..|s| - |left|])
    requires |r| <= |left| && r == left[..|r|] && AllSpace(left[|r|..])
    ensures StrippedAt(s, r, |s| - |left|)
  {
    PrefixOfSuffix(s, left, r);
  }

  /** A prefix `r` of a suffix `left` of `s` sits in `s` at the start of `left`. */
  lemma PrefixOfSuffix<T>(s: seq<T>, left: seq<T>, r: seq<T>)
    requires |left| <= |s| && left == s[|s| - |left|..]
    requires |r| <= |left| && r == left[..|r|]
    ensures s[|s| - |left|..|s| - |left| + |r|] == r
    ensures s[|s| - |left| + |r|..] == left[|r|..]
  {
  }

  // ---------------------------------------------------------------------------
  // The handler

  /** `request.headers.get(name)`: the value of the first header called
      `name`. Headers are Starlette's list of pairs, not a dict; `LookupIsGet`
      shows the lookup is `PyDict.Get` applied to that list itself. */
  function Lookup(headers: seq<(string, string)>, name: string): (r: Option<string>)
    ensures r.None? <==> forall i | 0 <= i < |headers| :: headers[i].0 != name
    ensures r.Some? ==> exists i | 0 <= i < |headers| ::
              headers[i] == (name, r.value) && forall j | 0 <= j < i :: headers[j].0 != name
  {
    if headers == [] then None
    else if headers[0].0 == name then Some(headers[0].1)
    else
      Lookup(headers[1..], name)
  }

  /** A header lookup is `PyDict.Get` applied to the header list itself: the
      first pair with that name wins. A `dict` built from the same pairs would
      hold the last value instead (`PyDict.PutAllGet`), so a repeated
      `X-Forwarded-For` is read from its first occurrence. */
  lemma {:induction false} LookupIsGet(headers: seq<(string, string)>, name: string)
    ensures Lookup(headers, name) == PyDict.Get(headers, name)
  {
    if headers != [] {
      var keys := PyDict.Keys(headers);
      assert keys == [headers[0].0] + PyDict.Keys(headers[1..]);
      if headers[0].0 != name {
        LookupIsGet(headers[1..], name);
        if name in keys {
          var j := PyDict.IndexOf(keys[1..], name);
          assert PyDict.IndexOf(keys, name) == j + 1;
        }
      }
    }
  }

  /** `get_client_ip(request)`: the first hop of `X-Forwarded-For`, else
      `X-Real-IP`, else the peer's host. There is no address only when none of
      the three is there. */
  function GetClientIp(req: Request): (ip: Option<string>)
    ensures ip.None? <==> Lookup(req.headers, FORWARDED_FOR).None? && Lookup(req.headers, REAL_IP).None? && req.client.None?
  {
    match Lookup(req.headers, FORWARDED_FOR)
    case Some(forwarded) => Some(Strip(FirstField(forwarded)))
    case None =>
      match Lookup(req.headers, REAL_IP)
      case Some(realIp) => Some(realIp)
      case None => if req.client.Some? then Some(req.client.value.host) else None
  }

  /** `get_client_ip(request) or "0.0.0.0"`: the address the response reports,
      never empty. */
  function ReportedIp(req: Request): (ip: string)
    ensures ip != ""
    ensures GetClientIp(req) == Some(ip) || (ip == UNSPECIFIED_ADDRESS && GetClientIp(req) in {None, Some("")})
  {
    match GetClientIp(req)
    case Some(found) => if found != "" then found else UNSPECIFIED_ADDRESS
    case None => UNSPECIFIED_ADDRESS
  }

  /** The `ip_version` label of an address: "Unknown" when it does not parse. */
  function VersionLabel(ip: string, parse: string -> Option<Version>): (version: string)
    ensures version == "ipv4" || version == "ipv6" || version == "Unknown"
    ensures version == "ipv6" <==> parse(ip) == Some(6)
    ensures version == "ipv4" <==> parse(ip) == Some(4)
    ensures version == "Unknown" <==> parse(ip).None?
  {
    match parse(ip)
    case Some(v) => if v == 6 then "ipv6" else "ipv4"
    case None => "Unknown"
  }

  /** `detect_ip_version(request)`: the JSON object of the response. It has
      exactly the keys client_ip, ip_version and status, in that order, and
      reports success even when the address does not parse. */
  function DetectIpVersion(req: Request, parse: string -> Option<Version>): (body: JsonObject)
    ensures |body| == 3 && body[0].0 == "client_ip" && body[1].0 == "ip_version" && body[2].0 == "status"
    ensures body[0].1 == ReportedIp(req)
    ensures body[1].1 == "ipv6" <==> parse(body[0].1) == Some(6)
    ensures body[1].1 == "ipv4" <==> parse(body[0].1) == Some(4)
    ensures body[1].1 == "Unknown" <==> parse(body[0].1).None?
    ensures body[2].1 == "success"
  {
    var ip := ReportedIp(req);
    [("client_ip", ip), ("ip_version", VersionLabel(ip, parse)), ("status", "success")]
  }

  // ---------------------------------------------------------------------------
  // Properties of the precedence rule

  /** With `X-Forwarded-For` present the address is its first comma-separated
      entry, stripped of surrounding whitespace; it holds no comma. */
  lemma ForwardedForFirstHop(req: Request, forwarded: string)
    requires Lookup(req.headers, FORWARDED_FOR) == Some(forwarded)
    ensures GetClientIp(req).Some?
    ensures IsStripped(FirstField(forwarded), GetClientIp(req).value)
    ensures ',' !in GetClientIp(req).value
  {
  }

  /** `X-Forwarded-For` wins: `X-Real-IP` and the peer do not matter when it is there. */
  lemma ForwardedForWins(req: Request, other: Request)
    requires Lookup(req.headers, FORWARDED_FOR).Some?
    requires Lookup(other.headers, FORWARDED_FOR) == Lookup(req.headers, FORWARDED_FOR)
    ensures GetClientIp(other) == GetClientIp(req)
  {
  }

  /** `X-Real-IP` counts only without `X-Forwarded-For`, and then it is
      returned as it is, commas and whitespace included, whatever the peer. */
  lemma RealIpVerbatim(req: Request, realIp: string)
    requires Lookup(req.headers, FORWARDED_FOR).None?
    requires Lookup(req.headers, REAL_IP) == Some(realIp)
    ensures GetClientIp(req) == Some(realIp)
  {
  }

  /** Without either header the address is the peer's host, or there is none. */
  lemma PeerFallback(req: Request)
    requires Lookup(req.headers, FORWARDED_FOR).None? && Lookup(req.headers, REAL_IP).None?
    ensures GetClientIp(req) == if req.client.Some? then Some(req.client.value.host) else None
  {
  }

  /** An `X-Forwarded-For` whose first entry is blank (an empty header, one
      that starts with a comma, or a first entry of whitespace only) is reported as 0.0.0.0, whatever
      `X-Real-IP` and the peer say. */
  lemma BlankForwardedForIsUnspecified(req: Request, forwarded: string)
    requires Lookup(req.headers, FORWARDED_FOR) == Some(forwarded)
    requires AllSpace(FirstField(forwarded))
    ensures GetClientIp(req) == Some("")
    ensures ReportedIp(req) == UNSPECIFIED_ADDRESS
  {
  }
}
