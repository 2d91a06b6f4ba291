/**
 The small part of Go's `net/http` and `time` packages that the session core
 relies on: instants and durations, the status codes it answers with, the
 `Set-Cookie` record it builds, and `Request.Cookie`, which picks the first
 cookie of a given name out of the request's `Cookie` header.
 */
module Http {

  datatype Option<+T> = None | Some(value: T)

  /** An instant, as nanoseconds on one clock (Go's `time.Time`). */
  type Time = int

  /** A span of time in nanoseconds (Go's `time.Duration`). */
  type Duration = int

  const Second: Duration := 1_000_000_000
  const Minute: Duration := 60 * Second
  const Hour: Duration := 60 * Minute

  const StatusOK := 200
  const StatusSeeOther := 303
  const StatusUnauthorized := 401
  const StatusForbidden := 403
  const StatusInternalServerError := 500

  /** `t.After(v)`: the instant `t` is strictly later than `v`. */
  predicate After(t: Time, v: Time) {
    t > v
  }

  /** One `name=value` pair of a request's `Cookie` header, in header order. */
  datatype CookiePair = CookiePair(name: string, value: string)

  /** The cookie that carries the session id, set at login and read by the
      middleware. */
  const SessionCookieName := "session_id"

  /** A request as the session core sees it: its cookies, and its path, which
      stands for the rest of the request that the middleware passes on
      unchanged. */
  datatype Request = Request(path: string, cookies: seq<CookiePair>)

  /** The `SameSite` attribute of a cookie; `SameSiteUnset` is Go's zero value,
      which writes no attribute at all. */
  datatype SameSite = SameSiteUnset | SameSiteLax

  /** The fields of an `http.Cookie` that the login handlers set. */
  datatype Cookie = Cookie(
    name: string,
    value: string,
    path: string,
    expires: Time,
    httpOnly: bool,
    sameSite: SameSite)

  /** `r.Cookie(name)`: the value of the first cookie called `name`, or
      `None` where Go returns `http.ErrNoCookie`. */
  function FirstCookie(cookies: seq<CookiePair>, name: string): (r: Option<string>)
    ensures r.None? <==> forall i :: 0 <= i < |cookies| ==> cookies[i].name != name
    ensures r.Some? ==>
      exists i :: 0 <= i < |cookies| && cookies[i] == CookiePair(name, r.value) &&
        forall j :: 0 <= j < i ==> cookies[j].name != name
  {
    if cookies == [] then None
    else if cookies[0].name == name then Some(cookies[0].value)
    else
      var rest := FirstCookie(cookies[1..], name);
      assert forall i :: 1 <= i < |cookies| ==> cookies[i] == cookies[1..][i - 1];
      rest
  }
}
