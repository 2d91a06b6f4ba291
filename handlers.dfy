/**
 The password prototype of the server: its configuration object, the
 janitor that every ten minutes deletes the sessions whose expiry lies
 strictly before the tick, and its `handleLogin`, which answers 500 to a body
 that does not decode and 401 to a wrong password.
 */
module Handlers {
  import opened Http
  import opened Sessions
  import Login

  /** The store as one janitor tick at instant `t` leaves it. */
  function Swept(sessions: map<string, Time>, t: Time): (r: map<string, Time>)
    ensures forall k :: k in r <==> k in sessions && !After(t, sessions[k])
    ensures forall k :: k in r ==> r[k] == sessions[k]
  {
    map k | k in sessions && !After(t, sessions[k]) :: sessions[k]
  }

  /** A second sweep at the same tick finds nothing left to delete. */
  lemma SweepIdempotent(sessions: map<string, Time>, t: Time)
    ensures Swept(Swept(sessions, t), t) == Swept(sessions, t)
  {
  }

  /** Ticks only move forward: a sweep at an earlier tick followed by one at a
      later tick leaves what the later tick alone would leave. */
  lemma LaterSweepSubsumes(sessions: map<string, Time>, t1: Time, t2: Time)
    requires t1 <= t2
    ensures Swept(Swept(sessions, t1), t2) == Swept(sessions, t2)
  {
  }

  /** A session that has not yet expired at the tick survives the sweep with
      its expiry unchanged. */
  lemma SweepKeepsLiveSessions(sessions: map<string, Time>, t: Time, id: string)
    requires id in sessions && t <= sessions[id]
    ensures id in Swept(sessions, t) && Swept(sessions, t)[id] == sessions[id]
  {
  }

  class ApiConfig {
    const baseURL: string
    const password: string
    /** The pointer to the store shared with `main` and the janitor. */
    const sessions: Store
    const sessionDuration: Duration

    /** `NewApiConfig`: the configuration with a one-hour session duration.
        The janitor goroutine it starts is `JanitorTick`, called once per tick. */
    constructor (baseURL: string, password: string, sessions: Store)
      ensures this.baseURL == baseURL && this.password == password
      ensures this.sessions == sessions && sessionDuration == Hour
    {
      this.baseURL := baseURL;
      this.password := password;
      this.sessions := sessions;
      this.sessionDuration := Hour;
    }

    /** One tick of the janitor at instant `t`: a pass over the store that
        deletes every entry whose expiry is strictly before `t`. */
    method JanitorTick(t: Time)
      modifies sessions
      ensures sessions.entries == Swept(old(sessions.entries), t)
    {
      ghost var before := sessions.entries;
      var pending := sessions.entries.Keys;
      while pending != {}
        invariant pending <= before.Keys
        invariant forall k :: k in sessions.entries <==>
          k in before && (k in pending || !After(t, before[k]))
        invariant forall k :: k in sessions.entries ==> sessions.entries[k] == before[k]
        decreases pending
      {
        var k :| k in pending;
        if After(t, sessions.entries[k]) {
          sessions.entries := sessions.entries - {k};
        }
        pending := pending - {k};
      }
    }

    /** `handleLogin` with the request body, the id `uuid.New()` drew and the
        instant `time.Now()` read. */
    method HandleLogin(body: Login.Body, sessionID: string, now: Time) returns (resp: Login.Response)
      modifies sessions
      ensures Login.Outcome(resp, sessions.entries) ==
        Login.Handle(Login.PasswordLogin, password, sessionDuration, old(sessions.entries), body, sessionID, now)
    {
      var secret := Login.DecodeSecret(Login.PasswordLogin, body);
      if secret.None? {
        resp := Login.Response(StatusInternalServerError, None);
        return;
      }
      if secret.value != password {
        resp := Login.Response(StatusUnauthorized, None);
        return;
      }
      var expiresAt := now + sessionDuration;
      var cookie := Login.SessionCookie(Login.PasswordLogin, sessionID, expiresAt);
      sessions.entries := sessions.entries[sessionID := expiresAt];
      resp := Login.Response(StatusOK, Some(cookie));
    }
  }
}
