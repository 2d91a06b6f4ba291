/**
 The session store: a map from session id to expiry instant, created once at
 start-up and shared by pointer between the login handler, the middleware
 and the janitor. It is an object so that every holder of the pointer sees
 the same entries.
 */
module Sessions {
  import opened Http

  class Store {
    /** The map behind the pointer: session id to the instant it expires. */
    var entries: map<string, Time>

    /** `make(map[string]time.Time)`: the store starts empty. */
    constructor ()
      ensures entries == map[]
    {
      entries := map[];
    }
  }
}
