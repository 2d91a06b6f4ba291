/**
 The login decision shared by the two prototypes of `handleLogin`. They
 differ only in the JSON field that carries the secret (`password` or
 `token`), in the statuses of the two failures, and in the cookie's
 `SameSite` attribute. A successful login inserts `id -> now + duration` into
 the store and hands the same id and expiry back in the `session_id` cookie.
 */
module Login {
  import opened Http

  /** `PasswordLogin` is the prototype in handlers.go, `TokenLogin` the one
      in server.go. */
  datatype Variant = PasswordLogin | TokenLogin

  /** A request body as `encoding/json` sees it: not a JSON object of string
      fields at all (a decode error), or an object with its string fields. */
  datatype Body = Malformed | JsonObject(fields: map<string, string>)

  /** The JSON field the secret is read from. */
  function SecretField(v: Variant): string {
    match v
    case PasswordLogin => "password"
    case TokenLogin => "token"
  }

  /** Decoding into the one-field struct: an error for a malformed body; for
      an object, the field's string, or "" (Go's zero value) when the field
      is absent. */
  function DecodeSecret(v: Variant, body: Body): Option<string> {
    match body
    case Malformed => None
    case JsonObject(fields) =>
      Some(if SecretField(v) in fields then fields[SecretField(v)] else "")
  }

  /** The status answered when the body does not decode. */
  function DecodeFailureStatus(v: Variant): int {
    match v
    case PasswordLogin => StatusInternalServerError
    case TokenLogin => StatusForbidden
  }

  /** The status answered when the decoded secret is not the configured one. */
  function WrongSecretStatus(v: Variant): int {
    match v
    case PasswordLogin => StatusUnauthorized
    case TokenLogin => StatusForbidden
  }

  /** The cookie a successful login sets. */
  function SessionCookie(v: Variant, id: string, expiresAt: Time): Cookie {
    Cookie(
      name := SessionCookieName,
      value := id,
      path := "/",
      expires := expiresAt,
      httpOnly := true,
      sameSite := if v == TokenLogin then SameSiteLax else SameSiteUnset)
  }

  /** What a login answers: its status and the cookie it sets, if any. */
  datatype Response = Response(status: int, setCookie: Option<Cookie>)

  /** The answer together with the store as the handler leaves it. */
  datatype Outcome = Outcome(response: Response, sessions: map<string, Time>)

  /** One call of `handleLogin` with the configured `password`, the `duration`
      added to `now`, the store's entries before the call, the request body
      and the freshly drawn session id. */
  function Handle(
    v: Variant, password: string, duration: Duration,
    sessions: map<string, Time>, body: Body, id: string, now: Time): (out: Outcome)
    ensures out.response.status == StatusOK <==> DecodeSecret(v, body) == Some(password)
    ensures body.Malformed? ==> out.response.status == DecodeFailureStatus(v)
    ensures body.JsonObject? && DecodeSecret(v, body) != Some(password) ==>
      out.response.status == WrongSecretStatus(v)
    ensures out.response.status != StatusOK ==>
      out.sessions == sessions && out.response.setCookie.None?
    ensures out.response.status == StatusOK ==>
      out.sessions == sessions[id := now + duration] &&
      out.response.setCookie == Some(SessionCookie(v, id, now + duration))
  {
    match DecodeSecret(v, body)
    case None => Outcome(Response(DecodeFailureStatus(v), None), sessions)
    case Some(secret) =>
      if secret != password then Outcome(Response(WrongSecretStatus(v), None), sessions)
      else
        var expiresAt := now + duration;
        Outcome(Response(StatusOK, Some(SessionCookie(v, id, expiresAt))), sessions[id := expiresAt])
  }

  /** On success the cookie names exactly the entry that was inserted: its
      value is a key of the new store, its `Expires` is that key's stored
      expiry, it is `HttpOnly` with `Path=/`, `SameSite=Lax` only in the
      token variant, and every other key keeps its old expiry. */
  lemma CookieMatchesStoredSession(
    v: Variant, password: string, duration: Duration,
    sessions: map<string, Time>, body: Body, id: string, now: Time)
    requires Handle(v, password, duration, sessions, body, id, now).response.status == StatusOK
    ensures
      var out := Handle(v, password, duration, sessions, body, id, now);
      var c := out.response.setCookie.value;
      && out.response.setCookie.Some?
      && c.name == SessionCookieName && c.path == "/" && c.httpOnly
      && (c.sameSite == SameSiteLax <==> v == TokenLogin)
      && c.value == id && c.value in out.sessions && out.sessions[c.value] == c.expires
      && c.expires == now + duration
      && out.sessions.Keys == sessions.Keys + {id}
      && forall k :: k in sessions && k != id ==> out.sessions[k] == sessions[k]
  {
  }

  /** A body that decodes without the secret's field logs in exactly when the
      configured secret is empty. */
  lemma MissingFieldMatchesEmptySecret(
    v: Variant, password: string, duration: Duration,
    sessions: map<string, Time>, fields: map<string, string>, id: string, now: Time)
    requires SecretField(v) !in fields
    ensures Handle(v, password, duration, sessions, JsonObject(fields), id, now).response.status == StatusOK
      <==> password == ""
  {
  }
}
