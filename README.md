# Session lifecycle of the media upload service

This project models the part of the upload service that holds its state:
the **session store** (a map from session id to expiry instant, created
empty at start-up and shared by pointer), the **login handler** that
checks a shared secret and inserts `id -> now + 1 hour`, the **janitor**
that on every tick deletes the sessions whose expiry is strictly before the
tick, and the **session middleware** that admits a request exactly when its
`session_id` cookie names a key of the store.

The repository has two near-identical prototypes in package `main`:

- `handlers.go` is the password prototype. It reads the `password` field,
  answers 500 to a body that does not decode and 401 to a wrong password,
  and has the janitor.
- `server.go` is the token prototype. It reads the `token` field, answers
  403 to both failures, sets `SameSite=Lax` on the cookie, and has no janitor.

Their middleware closures are the same line for line. `handlers.go:114-148`
and `server.go:70-104` are both modelled by the two functions of module
`Middleware`.

Modules:

- `Http` holds instants and durations, the status codes, the cookie record,
  and `Request.Cookie` (`FirstCookie`).
- `Sessions` holds the store object.
- `Middleware` holds both wrapper shapes.
- `Login` is the login decision as a pure function, parameterised by the
  prototype.
- `Handlers` and `Server` hold each prototype's `apiConfig` class. Their
  methods change the shared store in place, and each is proved against the
  pure functions.
- `Lifecycle` replays sequences of logins and ticks. It proves what holds
  across calls: how long a session lives, and when its cookie is admitted.

The clock (`time.Now()`, the ticker's time) and the random id
(`uuid.New()`) are parameters of the methods. The request body enters as
its decoded form.

## Model

| member | source | states |
|---|---|---|
| `Http.FirstCookie` | handlers.go:116-121 | `r.Cookie("session_id")` gives no value exactly when no cookie has that name; otherwise it gives the value of the first cookie with that name. |
| `Sessions.Store.constructor` | main.go:27 | The shared store starts empty. |
| `Middleware.SessionMiddlewareHandler` | handlers.go:114-130 | The wrapped `http.Handler` runs, on the unmodified request, exactly when the first `session_id` cookie names a store key; otherwise the reply is a 303 redirect to `/`. |
| `Middleware.SessionMiddleware` | handlers.go:132-148 | The same as above for the function-handler shape. The identical closures at server.go:70-104 have the same contract. |
| `Middleware.NoCookieRedirects` | handlers.go:116-121 | With no `session_id` cookie, both shapes answer 303 to `/` and never call downstream. |
| `Middleware.UnknownSessionRedirects` | handlers.go:123-127 | A `session_id` cookie whose value is not a store key gets a 303 to `/` from both shapes. |
| `Middleware.WrapperShapesAgree` | handlers.go:114-148 | The two wrapper shapes give the same reply for every store, handler and request. |
| `Middleware.ExpiryNeverConsulted` | handlers.go:123-128 | Two stores with the same keys give the same reply, whatever the expiries. A session that is present but past its expiry is still admitted. |
| `Login.Handle` | handlers.go:60-103 | A login succeeds (200) exactly when the decoded secret equals the configured one. A malformed body answers 500 (403 for tokens). A wrong secret answers 401 (403 for tokens). A failure leaves the store unchanged and sets no cookie. A success stores `id -> now + duration`, overwriting any entry for `id`, and sets the session cookie. |
| `Login.CookieMatchesStoredSession` | handlers.go:80-94 | On success the cookie is `session_id`, `HttpOnly`, `Path=/`, and `SameSite=Lax` only for tokens. Its value is the inserted key and its `Expires` is that key's stored expiry. The keys become the old keys plus `id`, and every other key keeps its expiry. |
| `Login.MissingFieldMatchesEmptySecret` | handlers.go:61-77 | A JSON object without the secret's field logs in exactly when the configured secret is empty. |
| `Handlers.Swept` | handlers.go:40-45 | A tick at `t` keeps exactly the entries whose expiry `v` is not before `t` (`!t.After(v)`). Kept entries keep their values, and no key is added. |
| `Handlers.SweepIdempotent` | handlers.go:40-45 | Sweeping twice at the same tick leaves what one sweep leaves. |
| `Handlers.LaterSweepSubsumes` | handlers.go:38-45 | A sweep at `t1` followed by one at `t2 >= t1` leaves what the sweep at `t2` alone leaves. |
| `Handlers.SweepKeepsLiveSessions` | handlers.go:40-45 | A session whose expiry is at or after the tick survives the sweep with its expiry. |
| `Handlers.ApiConfig.constructor` | handlers.go:27-34 | `NewApiConfig` keeps the base URL, the password and the store pointer, and fixes the session duration at one hour. |
| `Handlers.ApiConfig.JanitorTick` | handlers.go:38-45 | One ticker iteration, a loop over the store that deletes in place, leaves the store equal to `Swept(old store, t)`. |
| `Handlers.ApiConfig.HandleLogin` | handlers.go:60-103 | The password handler's response and its in-place update of the shared store are exactly those of `Login.Handle` for the password prototype with the configured duration. |
| `Server.ApiConfig.constructor` | server.go:12-15 | The token prototype's configuration keeps the password and the store pointer. |
| `Server.ApiConfig.HandleLogin` | server.go:25-60 | The token handler's response and its in-place update of the store are exactly those of `Login.Handle` for the token prototype with a duration of one hour. |
| `Lifecycle.KeysComeFromLogins` | handlers.go:38-94 | Only successful logins add keys. After any run of logins and ticks, every key was there before or was drawn by a login of the run whose secret matched. Failed attempts return before the insert. |
| `Lifecycle.SurvivesIffNoLaterTick` | handlers.go:38-45 | A session whose id no later successful login draws again is present after a run exactly when no tick of the run was strictly after its expiry. Its expiry does not change in the meantime. |
| `Lifecycle.LoginThenAdmitted` | handlers.go:80-128 | After a successful password login, the middleware admits any request whose first cookie with the returned cookie's name (`session_id`) carries the returned id, whatever other cookies it has. This holds through any later run whose ticks are not after the cookie's expiry and in which no successful login reuses the id. |
| `Lifecycle.ExpiredThenRedirected` | handlers.go:38-127 | Once a tick strictly after a session's expiry has run, and no successful login drew the id again, a request whose first `session_id` cookie carries it is redirected to `/`. |
| `Lifecycle.ServerNeverForgets` | server.go:44-58 | Without a janitor no key is ever removed. Every successful token login's id is a key after any run. |
| `Lifecycle.ServerLoginAdmittedForever` | server.go:44-84 | In the token prototype, a request whose first cookie with the returned cookie's name carries its value is admitted after any number of later login attempts. |

## Left out

- Concurrency: the janitor goroutine and the request goroutines share the map without a lock in the source. Here every call runs on its own, in some order. The data race is not modelled.
- The ticker's ten-minute schedule (handlers.go:37): a tick is a `JanitorTick(t)` call for any instant `t`. Nothing is proved about how often ticks come.
- The random id and the clock are parameters. The model proves nothing about uniqueness of ids. The lifecycle lemmas assume that no later successful login draws the same id.
- `time.Time.Add` saturation and the monotonic clock reading: instants are unbounded integers of nanoseconds.
- JSON decoding internals: the body is either malformed or an object of string fields. `Login.DecodeSecret` stands in for `decoder.Decode(&passStruct)` (handlers.go:64-65) and `decoder.Decode(&tokenJSON)` (server.go:29-30). It is a definition, with no contract of its own. Go's case-insensitive field matching and its handling of trailing data and non-string values are not modelled. They all land in one of the two cases.
- `Request.Cookie` parsing: the model gets the header's cookies as name/value pairs in order. Go drops pairs with invalid names or values and strips quotes; neither is modelled.
- The database handle `db` of `apiConfig` and of `NewApiConfig` (handlers.go:24,27,33) is not modelled. Its only use in the core is the ping after a successful login (handlers.go:96-100), a foreign call whose result is only logged.
- Logging, `http.SetCookie` header serialisation and `http.Redirect` internals: the response is a status plus the cookie record, or a redirect with status and location.
- Template rendering, static files, `handleRoot`, `handleHome`, `handleFavicon`, the upload handler (api_handlers.go, handlers.go:150-186) and the route table and start-up in main.go are file I/O and library wiring. They are outside the session core.
- A standalone delete-one-session operation does not exist in the source. The janitor is the only place entries are deleted.
