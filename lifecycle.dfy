/**
 Sessions over time. The store changes only through login attempts and, in
 the password prototype, janitor ticks; a run replays such events in order.
 From the per-call contracts this module proves what the two prototypes
 promise across calls: a session lives exactly until a tick strictly after
 its expiry (password prototype) or forever (token prototype), and a cookie
 from a successful login is admitted by the middleware for that long.
 */
module Lifecycle {
  import opened Http
  import Login
  import Handlers
  import Middleware

  /** A call of `handleLogin`: the body, the id `uuid.New()` drew and `time.Now()`. */
  datatype Attempt = Attempt(body: Login.Body, id: string, now: Time)

  /** What can change the password prototype's store. */
  datatype Event = LoginAttempt(attempt: Attempt) | Tick(t: Time)

  /** The password prototype's store after one event. */
  function Apply(password: string, sessions: map<string, Time>, e: Event): map<string, Time> {
    match e
    case LoginAttempt(a) =>
      Login.Handle(Login.PasswordLogin, password, Hour, sessions, a.body, a.id, a.now).sessions
    case Tick(t) => Handlers.Swept(sessions, t)
  }

  /** The password prototype's store after the events, in order. */
  function Run(password: string, sessions: map<string, Time>, events: seq<Event>): map<string, Time>
    decreases |events|
  {
    if events == [] then sessions
    else Run(password, Apply(password, sessions, events[0]), events[1..])
  }

  /** The attempt's body decodes to the configured password. */
  predicate Succeeds(password: string, a: Attempt) {
    Login.DecodeSecret(Login.PasswordLogin, a.body) == Some(password)
  }

  /** The ids drawn by the successful login attempts among the events. */
  function SucceededIds(password: string, events: seq<Event>): set<string> {
    set i | 0 <= i < |events| && events[i].LoginAttempt? && Succeeds(password, events[i].attempt) ::
      events[i].attempt.id
  }

  lemma SucceededIdsOfTail(password: string, events: seq<Event>)
    requires events != []
    ensures SucceededIds(password, events[1..]) <= SucceededIds(password, events)
  {
    forall k | k in SucceededIds(password, events[1..]) ensures k in SucceededIds(password, events) {
      var i :| 0 <= i < |events[1..]| && events[1..][i].LoginAttempt? &&
        Succeeds(password, events[1..][i].attempt) && events[1..][i].attempt.id == k;
      assert events[i + 1] == events[1..][i];
    }
  }

  /** No tick among the events is strictly after `expiry`. */
  predicate NoTickAfter(events: seq<Event>, expiry: Time) {
    forall i :: 0 <= i < |events| && events[i].Tick? ==> !After(events[i].t, expiry)
  }

  /** Only successful logins add keys: every key after a run was there before
      or was drawn by one of the run's successful login attempts. */
  lemma {:induction false} KeysComeFromLogins(password: string, sessions: map<string, Time>, events: seq<Event>)
    ensures Run(password, sessions, events).Keys <= sessions.Keys + SucceededIds(password, events)
    decreases |events|
  {
    if events != [] {
      var next := Apply(password, sessions, events[0]);
      KeysComeFromLogins(password, next, events[1..]);
      SucceededIdsOfTail(password, events);
      if events[0].LoginAttempt? && Succeeds(password, events[0].attempt) {
        assert events[0].attempt.id in SucceededIds(password, events);
      }
    }
  }

  /** A session whose id no later successful login draws again survives a run exactly
      when no tick of the run is strictly after its expiry, and its expiry
      never changes meanwhile. */
  lemma {:induction false} SurvivesIffNoLaterTick(
    password: string, sessions: map<string, Time>, events: seq<Event>, id: string)
    requires id !in SucceededIds(password, events)
    ensures id in Run(password, sessions, events) <==>
      id in sessions && NoTickAfter(events, sessions[id])
    ensures id in Run(password, sessions, events) ==> Run(password, sessions, events)[id] == sessions[id]
    decreases |events|
  {
    if events != [] {
      var next := Apply(password, sessions, events[0]);
      SucceededIdsOfTail(password, events);
      SurvivesIffNoLaterTick(password, next, events[1..], id);
      assert events[0].LoginAttempt? && Succeeds(password, events[0].attempt) ==> events[0].attempt.id != id;
      assert id in next <==> id in sessions && (events[0].Tick? ==> !After(events[0].t, sessions[id]));
      assert id in next ==> next[id] == sessions[id];
      if id in sessions {
        assert NoTickAfter(events, sessions[id]) <==>
          (events[0].Tick? ==> !After(events[0].t, sessions[id])) && NoTickAfter(events[1..], sessions[id])
        by {
          if NoTickAfter(events, sessions[id]) {
            forall i | 0 <= i < |events[1..]| && events[1..][i].Tick?
              ensures !After(events[1..][i].t, sessions[id])
            {
              assert events[1..][i] == events[i + 1];
            }
          }
          if (events[0].Tick? ==> !After(events[0].t, sessions[id])) && NoTickAfter(events[1..], sessions[id]) {
            forall i | 0 <= i < |events| && events[i].Tick? ensures !After(events[i].t, sessions[id]) {
              if i > 0 { assert events[i] == events[1..][i - 1]; }
            }
          }
        }
      }
    }
  }

  /** A request whose first `session_id` cookie carries the id a successful
      password login returned is admitted by the middleware after any run in
      which no tick is later than the cookie's expiry and no successful login
      draws the same id again. */
  lemma LoginThenAdmitted<R>(
    password: string, sessions: map<string, Time>, a: Attempt, events: seq<Event>,
    h: Request -> R, r: Request)
    requires Login.Handle(Login.PasswordLogin, password, Hour, sessions, a.body, a.id, a.now).response.status == StatusOK
    requires a.id !in SucceededIds(password, events) && NoTickAfter(events, a.now + Hour)
    requires
      var c := Login.Handle(Login.PasswordLogin, password, Hour, sessions, a.body, a.id, a.now).response.setCookie.value;
      Http.FirstCookie(r.cookies, c.name) == Some(c.value)
    ensures Middleware.SessionMiddleware(Run(password, sessions, [LoginAttempt(a)] + events), h, r) ==
      Middleware.Downstream(h(r))
  {
    var out := Login.Handle(Login.PasswordLogin, password, Hour, sessions, a.body, a.id, a.now);
    assert ([LoginAttempt(a)] + events)[1..] == events;
    SurvivesIffNoLaterTick(password, out.sessions, events, a.id);
  }

  /** Once a tick strictly after a session's expiry has run, and no later
      successful login drew the same id, the middleware turns that session's
      cookie away. */
  lemma ExpiredThenRedirected<R>(
    password: string, sessions: map<string, Time>, events: seq<Event>, id: string,
    h: Request -> R, r: Request)
    requires id in sessions && id !in SucceededIds(password, events)
    requires !NoTickAfter(events, sessions[id])
    requires Http.FirstCookie(r.cookies, SessionCookieName) == Some(id)
    ensures Middleware.SessionMiddleware(Run(password, sessions, events), h, r) ==
      Middleware.Redirect(StatusSeeOther, "/")
  {
    SurvivesIffNoLaterTick(password, sessions, events, id);
  }

  /** The token prototype's store after the login attempts, in order. */
  function ServerRun(password: string, sessions: map<string, Time>, attempts: seq<Attempt>): map<string, Time>
    decreases |attempts|
  {
    if attempts == [] then sessions
    else
      var a := attempts[0];
      ServerRun(password, Login.Handle(Login.TokenLogin, password, Hour, sessions, a.body, a.id, a.now).sessions, attempts[1..])
  }

  /** Without a janitor nothing is ever removed: every key stays and every
      successful token login's id is a key at the end. */
  lemma {:induction false} ServerNeverForgets(password: string, sessions: map<string, Time>, attempts: seq<Attempt>)
    ensures sessions.Keys <= ServerRun(password, sessions, attempts).Keys
    ensures forall i :: 0 <= i < |attempts| && Login.DecodeSecret(Login.TokenLogin, attempts[i].body) == Some(password) ==>
      attempts[i].id in ServerRun(password, sessions, attempts)
    decreases |attempts|
  {
    if attempts != [] {
      var a := attempts[0];
      var next := Login.Handle(Login.TokenLogin, password, Hour, sessions, a.body, a.id, a.now).sessions;
      ServerNeverForgets(password, next, attempts[1..]);
      forall i | 0 <= i < |attempts| && Login.DecodeSecret(Login.TokenLogin, attempts[i].body) == Some(password)
        ensures attempts[i].id in ServerRun(password, sessions, attempts)
      {
        if i > 0 { assert attempts[i] == attempts[1..][i - 1]; }
      }
    }
  }

  /** In the token prototype a successful login's cookie is admitted after any
      number of further attempts, however much time has passed. */
  lemma ServerLoginAdmittedForever<R>(
    password: string, sessions: map<string, Time>, a: Attempt, later: seq<Attempt>,
    h: Request -> R, r: Request)
    requires Login.Handle(Login.TokenLogin, password, Hour, sessions, a.body, a.id, a.now).response.status == StatusOK
    requires
      var c := Login.Handle(Login.TokenLogin, password, Hour, sessions, a.body, a.id, a.now).response.setCookie.value;
      Http.FirstCookie(r.cookies, c.name) == Some(c.value)
    ensures Middleware.SessionMiddleware(ServerRun(password, sessions, [a] + later), h, r) == Middleware.Downstream(h(r))
  {
    assert ([a] + later)[1..] == later;
    var next := Login.Handle(Login.TokenLogin, password, Hour, sessions, a.body, a.id, a.now).sessions;
    ServerNeverForgets(password, next, later);
  }
}
