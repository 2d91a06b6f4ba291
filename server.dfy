/**
 The token prototype of the server. Its `handleLogin` reads the `token`
 field, answers 403 to both a body that does not decode and a wrong token,
 adds `time.Hour` directly and sets `SameSite=Lax` on the cookie. It has no
 janitor, so its store only ever gains or overwrites entries.
 */
module Server {
  import opened Http
  import opened Sessions
  import Login

  class ApiConfig {
    const password: string
    /** The pointer to the shared store. */
    const sessions: Store

    constructor (password: string, sessions: Store)
      ensures this.password == password && this.sessions == sessions
    {
      this.password := password;
      this.sessions := sessions;
    }

    /** `handleLogin` with the request body, the id `uuid.New()` drew and the
        instant `time.Now()` read. */
    method HandleLogin(body: Login.Body, sessionID: string, now: Time) returns (resp: Login.Response)
      modifies sessions
      ensures Login.Outcome(resp, sessions.entries) ==
        Login.Handle(Login.TokenLogin, password, Hour, old(sessions.entries), body, sessionID, now)
    {
      var token := Login.DecodeSecret(Login.TokenLogin, body);
      if token.None? {
        resp := Login.Response(StatusForbidden, None);
        return;
      }
      if token.value != password {
        resp := Login.Response(StatusForbidden, None);
        return;
      }
      var expiresAt := now + Hour;
      var cookie := Login.SessionCookie(Login.TokenLogin, sessionID, expiresAt);
      sessions.entries := sessions.entries[sessionID := expiresAt];
      resp := Login.Response(StatusOK, Some(cookie));
    }
  }
}
