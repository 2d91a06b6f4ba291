/**
 The session middleware. Both wrapper shapes read the `session_id` cookie,
 redirect to `/` with 303 when it is missing or names no stored session, and
 otherwise hand the untouched request to the wrapped handler. They only read
 the store, and they never compare the stored expiry with any clock.
 */
module Middleware {
  import opened Http

  /** What a wrapped request turns into: a redirect written by the middleware,
      or whatever the downstream handler produced. */
  datatype Reply<R> = Redirect(status: int, location: string) | Downstream(result: R)

  /** An `http.Handler`: an object with a `ServeHTTP` method. */
  datatype Handler<R> = Handler(serveHTTP: Request -> R)

  /** The request carries a `session_id` cookie whose value is a key of the store. */
  predicate HasSession(sessions: map<string, Time>, r: Request) {
    exists i :: 0 <= i < |r.cookies| && r.cookies[i].name == SessionCookieName &&
      r.cookies[i].value in sessions &&
      forall j :: 0 <= j < i ==> r.cookies[j].name != SessionCookieName
  }

  /** `sessionMiddlewareHandler(h)` applied to one request. */
  function SessionMiddlewareHandler<R>(sessions: map<string, Time>, h: Handler<R>, r: Request): (reply: Reply<R>)
    ensures reply.Downstream? <==> HasSession(sessions, r)
    ensures reply.Downstream? ==> reply.result == h.serveHTTP(r)
    ensures reply.Redirect? ==> reply.status == StatusSeeOther && reply.location == "/"
  {
    match FirstCookie(r.cookies, SessionCookieName)
    case None => Redirect(StatusSeeOther, "/")
    case Some(id) =>
      if id !in sessions then Redirect(StatusSeeOther, "/")
      else Downstream(h.serveHTTP(r))
  }

  /** `sessionMiddleware(h)` applied to one request. */
  function SessionMiddleware<R>(sessions: map<string, Time>, h: Request -> R, r: Request): (reply: Reply<R>)
    ensures reply.Downstream? <==> HasSession(sessions, r)
    ensures reply.Downstream? ==> reply.result == h(r)
    ensures reply.Redirect? ==> reply.status == StatusSeeOther && reply.location == "/"
  {
    match FirstCookie(r.cookies, SessionCookieName)
    case None => Redirect(StatusSeeOther, "/")
    case Some(id) =>
      if id !in sessions then Redirect(StatusSeeOther, "/")
      else Downstream(h(r))
  }

  /** Without a `session_id` cookie the middleware redirects to `/` and never
      runs the wrapped handler. */
  lemma NoCookieRedirects<R>(sessions: map<string, Time>, h: Request -> R, r: Request)
    requires forall i :: 0 <= i < |r.cookies| ==> r.cookies[i].name != SessionCookieName
    ensures SessionMiddleware(sessions, h, r) == Redirect(StatusSeeOther, "/")
    ensures SessionMiddlewareHandler(sessions, Handler(h), r) == Redirect(StatusSeeOther, "/")
  {
  }

  /** A `session_id` cookie whose value is not a key of the store is redirected
      to `/` as well, whatever other keys the store holds. */
  lemma UnknownSessionRedirects<R>(sessions: map<string, Time>, h: Request -> R, r: Request)
    requires FirstCookie(r.cookies, SessionCookieName).Some?
    requires FirstCookie(r.cookies, SessionCookieName).value !in sessions
    ensures SessionMiddleware(sessions, h, r) == Redirect(StatusSeeOther, "/")
    ensures SessionMiddlewareHandler(sessions, Handler(h), r) == Redirect(StatusSeeOther, "/")
  {
  }

  /** The two wrapper shapes decide identically for every store and request. */
  lemma WrapperShapesAgree<R>(sessions: map<string, Time>, h: Request -> R, r: Request)
    ensures SessionMiddlewareHandler(sessions, Handler(h), r) == SessionMiddleware(sessions, h, r)
  {
  }

  /** Only the store's keys matter: two stores with the same ids but any
      expiries, past or future, give the same reply. */
  lemma ExpiryNeverConsulted<R>(sessions: map<string, Time>, other: map<string, Time>, h: Request -> R, r: Request)
    requires sessions.Keys == other.Keys
    ensures SessionMiddleware(sessions, h, r) == SessionMiddleware(other, h, r)
  {
  }
}
