/** The CSRF middleware's pass/reject decision. Cookies and headers are
    taken from the request as values: a cookie that is not sent is `None`,
    and a header that is not sent reads as "" (as `Header.Get` returns). */
module Csrf {
  import opened Wrappers
  import Text

  datatype Request = Request(
    httpMethod: string,
    path: string,
    csrfCookie: Option<string>,
    csrfHeader: string)

  datatype Decision = Pass | Reject(status: int, message: string)

  const StatusForbidden := 403

  predicate IsSafeMethod(m: string) {
    m == "GET" || m == "HEAD" || m == "OPTIONS"
  }

  /** The loop over the exempt paths: true iff some entry is a prefix of
      the path. */
  method IsExempt(exemptPaths: seq<string>, path: string) returns (exempt: bool)
    ensures exempt <==> exists i :: 0 <= i < |exemptPaths| && Text.HasPrefix(path, exemptPaths[i])
  {
    var i := 0;
    while i < |exemptPaths|
      invariant 0 <= i <= |exemptPaths|
      invariant forall k :: 0 <= k < i ==> !Text.HasPrefix(path, exemptPaths[k])
    {
      if Text.HasPrefix(path, exemptPaths[i]) {
        return true;
      }
      i := i + 1;
    }
    return false;
  }

  /** What the middleware does with a request. */
  method Check(exemptPaths: seq<string>, r: Request) returns (d: Decision)
    ensures d.Reject? ==> d.status == StatusForbidden
    ensures d.Reject? ==> d.message == "missing csrf token" || d.message == "invalid csrf token"
    ensures IsSafeMethod(r.httpMethod) ==> d == Pass
    ensures (exists i :: 0 <= i < |exemptPaths| && Text.HasPrefix(r.path, exemptPaths[i])) ==> d == Pass
    ensures d.Reject? && d.message == "missing csrf token" <==>
              !IsSafeMethod(r.httpMethod)
              && (forall i :: 0 <= i < |exemptPaths| ==> !Text.HasPrefix(r.path, exemptPaths[i]))
              && (r.csrfCookie.None? || r.csrfCookie.value == "")
    ensures d.Reject? && d.message == "invalid csrf token" <==>
              !IsSafeMethod(r.httpMethod)
              && (forall i :: 0 <= i < |exemptPaths| ==> !Text.HasPrefix(r.path, exemptPaths[i]))
              && r.csrfCookie.Some? && r.csrfCookie.value != ""
              && r.csrfHeader != r.csrfCookie.value
  {
    if IsSafeMethod(r.httpMethod) {
      return Pass;
    }
    var exempt := IsExempt(exemptPaths, r.path);
    if exempt {
      return Pass;
    }
    if r.csrfCookie.None? || r.csrfCookie.value == "" {
      return Reject(StatusForbidden, "missing csrf token");
    }
    if r.csrfHeader == "" || r.csrfHeader != r.csrfCookie.value {
      return Reject(StatusForbidden, "invalid csrf token");
    }
    return Pass;
  }

  /** A state-changing request to a protected path passes iff it carries a
      non-empty cookie token and the same token in the header. */
  method CheckProtected(exemptPaths: seq<string>, r: Request) returns (d: Decision)
    requires !IsSafeMethod(r.httpMethod)
    requires forall i :: 0 <= i < |exemptPaths| ==> !Text.HasPrefix(r.path, exemptPaths[i])
    ensures d == Pass <==> r.csrfCookie.Some? && r.csrfCookie.value != "" && r.csrfHeader == r.csrfCookie.value
  {
    d := Check(exemptPaths, r);
  }
}

/** The client address the rate limiter keys on. */
module RateLimit {
  import opened Wrappers
  import Text

  /** `extractIP`: the first X-Forwarded-For entry, trimmed; else
      X-Real-IP; else RemoteAddr without its last ":port". An absent header
      reads as "". */
  function ExtractIP(forwardedFor: string, realIP: string, remoteAddr: string): (ip: string)
    ensures forwardedFor == "" && realIP != "" ==> ip == realIP
    ensures forwardedFor == "" && realIP == "" ==>
              Text.HasPrefix(remoteAddr, ip)
              && (':' in remoteAddr ==> |ip| < |remoteAddr| && remoteAddr[|ip|] == ':' && ':' !in remoteAddr[|ip| + 1..])
              && (':' !in remoteAddr ==> ip == remoteAddr)
  {
    if forwardedFor != "" then
      Text.TrimSpace(Text.Split(forwardedFor, ',')[0])
    else if realIP != "" then
      realIP
    else
      match Text.LastIndexOf(remoteAddr, ':')
      case Some(i) => remoteAddr[..i]
      case None => remoteAddr
  }

  /** Of a list of forwarded addresses only the first counts, trimmed. */
  lemma FirstForwardedWins(first: string, rest: string, realIP: string, remoteAddr: string)
    requires ',' !in first
    ensures ExtractIP(first + "," + rest, realIP, remoteAddr) == Text.TrimSpace(first)
  {
    Text.SplitPrefixWord(first, rest, ',');
  }

  /** A single forwarded address is used, trimmed, whatever else is set. */
  lemma SingleForwarded(addr: string, realIP: string, remoteAddr: string)
    requires addr != "" && ',' !in addr
    ensures ExtractIP(addr, realIP, remoteAddr) == Text.TrimSpace(addr)
  {
    Text.SplitOfWordOnly(addr, ',');
  }

  /** "host:port" gives the host, also when the host holds colons itself
      (a bracketed IPv6 address). */
  lemma HostOfHostPort(host: string, port: string)
    requires ':' !in port
    ensures ExtractIP("", "", host + ":" + port) == host
  {
    var a := host + ":" + port;
    var r := ExtractIP("", "", a);
    assert a[|host|] == ':';
    assert a[|host| + 1..] == port;
    assert r == a[..|host|];
  }
}
