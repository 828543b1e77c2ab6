/** The in-memory session store: a map from session id to session, filled
    by `Create` and pruned by `Read` when it meets an expired session.
    Token signing and parsing are opaque: `Create` is given the signer's
    answer and `Read` the parser's. Times are integers in seconds. */
module Session {
  import opened Model

  /** The lifetime of a session unless an option sets it: one hour. */
  const DefaultTokenLifetime: int := 3600

  datatype MemorySession = MemorySession(startedAt: int, expiresAt: int, userId: Uuid)

  /** The store's options, applied in order after the defaults. */
  datatype MemoryOption = WithTokenLifetime(lifetime: int) | WithIssuer(issuer: string)

  /** The lifetime the options leave: the last one set, or the default. */
  function LifetimeAfter(opts: seq<MemoryOption>): int
  {
    if opts == [] then DefaultTokenLifetime
    else if opts[|opts| - 1].WithTokenLifetime? then opts[|opts| - 1].lifetime
    else LifetimeAfter(opts[..|opts| - 1])
  }

  /** The issuer the options leave: the last one set, or empty. */
  function IssuerAfter(opts: seq<MemoryOption>): string
  {
    if opts == [] then ""
    else if opts[|opts| - 1].WithIssuer? then opts[|opts| - 1].issuer
    else IssuerAfter(opts[..|opts| - 1])
  }

  /** Without a lifetime option the lifetime is one hour; with some, the
      last one wins. */
  lemma {:induction false} LifetimeDefaults(opts: seq<MemoryOption>)
    ensures (forall i :: 0 <= i < |opts| ==> !opts[i].WithTokenLifetime?) ==> LifetimeAfter(opts) == DefaultTokenLifetime
    ensures forall i :: (0 <= i < |opts| && opts[i].WithTokenLifetime?
      && (forall j :: i < j < |opts| ==> !opts[j].WithTokenLifetime?)) ==> LifetimeAfter(opts) == opts[i].lifetime
  {
    if opts != [] {
      var n := |opts|;
      LifetimeDefaults(opts[..n - 1]);
      forall i | 0 <= i < n - 1 && opts[i].WithTokenLifetime? && (forall j :: i < j < n ==> !opts[j].WithTokenLifetime?)
        ensures LifetimeAfter(opts) == opts[i].lifetime
      {
        assert opts[..n - 1][i] == opts[i];
        assert forall j :: i < j < n - 1 ==> opts[..n - 1][j] == opts[j];
      }
      if forall i :: 0 <= i < n ==> !opts[i].WithTokenLifetime? {
        assert forall i :: 0 <= i < n - 1 ==> opts[..n - 1][i] == opts[i];
      }
    }
  }

  /** What the token parser reports: a parse failure, or the token's
      validity and the session id among its claims. */
  datatype Parsed = ParseFailed | Parsed(valid: bool, sessionId: string)

  /** `Read` on the session map: the user the token's live session belongs
      to, and the map afterwards (the expired session removed). `users` are
      the answers of the user repository; a missing user is its error. */
  function ReadSession(sessions: map<string, MemorySession>, parsed: Parsed, now: int, users: map<Uuid, User>)
    : (r: (Result<User, Error>, map<string, MemorySession>))
  {
    if parsed.ParseFailed? || !parsed.valid then (Failure(InvalidToken), sessions)
    else if parsed.sessionId !in sessions then (Failure(InvalidToken), sessions)
    else
      var s := sessions[parsed.sessionId];
      if s.expiresAt < now then (Failure(InvalidToken), sessions - {parsed.sessionId})
      else if s.userId !in users then (Failure(InvalidToken), sessions)
      else (Success(users[s.userId]), sessions)
  }

  /** The only error is an invalid token; a user comes back exactly for a
      valid token naming a live session of a known user, and it is that
      user. */
  lemma ReadSessionAnswers(sessions: map<string, MemorySession>, parsed: Parsed, now: int, users: map<Uuid, User>)
    ensures var (res, _) := ReadSession(sessions, parsed, now, users);
      && (res.Failure? ==> res.error == InvalidToken)
      && (res.Success? <==>
            parsed.Parsed? && parsed.valid && parsed.sessionId in sessions
            && now <= sessions[parsed.sessionId].expiresAt && sessions[parsed.sessionId].userId in users)
      && (res.Success? ==> res.value == users[sessions[parsed.sessionId].userId])
  {
  }

  /** `Read` removes at most one session: the one the token names, and only
      when it has expired; every other session is kept as it was. */
  lemma ReadSessionPrunesOnlyExpired(sessions: map<string, MemorySession>, parsed: Parsed, now: int, users: map<Uuid, User>)
    ensures var (_, after) := ReadSession(sessions, parsed, now, users);
      && after.Keys <= sessions.Keys
      && (forall id :: id in after ==> after[id] == sessions[id])
      && (forall id :: id in sessions && id !in after ==>
            parsed.Parsed? && id == parsed.sessionId && sessions[id].expiresAt < now)
  {
  }

  /** The map after `Create` has stored a session for `u` under `id`. */
  function Stored(sessions: map<string, MemorySession>, id: string, u: User, now: int, lifetime: int)
    : (r: map<string, MemorySession>)
    ensures r.Keys == sessions.Keys + {id}
    ensures forall k :: k in sessions && k != id ==> r[k] == sessions[k]
    ensures r[id] == MemorySession(now, now + lifetime, u.id)
  {
    sessions[id := MemorySession(now, now + lifetime, u.id)]
  }

  /** A session just created authenticates its user until it expires, and
      reading it leaves the map as it is. */
  lemma CreateThenRead(sessions: map<string, MemorySession>, id: string, u: User, start: int, lifetime: int,
                       now: int, users: map<Uuid, User>)
    requires start <= now <= start + lifetime
    requires u.id in users
    ensures ReadSession(Stored(sessions, id, u, start, lifetime), Parsed(true, id), now, users)
         == (Success(users[u.id]), Stored(sessions, id, u, start, lifetime))
  {
  }

  /** After its lifetime the same token is refused and its session is
      removed; the other sessions stay. */
  lemma CreateThenReadExpired(sessions: map<string, MemorySession>, id: string, u: User, start: int, lifetime: int,
                              now: int, users: map<Uuid, User>)
    requires start + lifetime < now
    ensures var (res, after) := ReadSession(Stored(sessions, id, u, start, lifetime), Parsed(true, id), now, users);
      && res == Failure(InvalidToken)
      && id !in after
      && after == sessions - {id}
  {
    var s := Stored(sessions, id, u, start, lifetime);
    assert s - {id} == sessions - {id};
  }

  /** The session store (`Memory`). */
  class Memory {
    var issuer: string
    var tokenLifetime: int
    var sessions: map<string, MemorySession>

    /** `NewMemory`: an empty store with a one-hour lifetime, then each
        option in turn. The signing key and the user repository are not
        modelled. */
    constructor (opts: seq<MemoryOption>)
      ensures sessions == map[]
      ensures tokenLifetime == LifetimeAfter(opts)
      ensures issuer == IssuerAfter(opts)
    {
      issuer := "";
      tokenLifetime := DefaultTokenLifetime;
      sessions := map[];
      new;
      var i := 0;
      while i < |opts|
        invariant 0 <= i <= |opts|
        invariant tokenLifetime == LifetimeAfter(opts[..i])
        invariant issuer == IssuerAfter(opts[..i])
        invariant sessions == map[]
      {
        assert opts[..i + 1][..i] == opts[..i];
        match opts[i] {
          case WithTokenLifetime(d) => tokenLifetime := d;
          case WithIssuer(s) => issuer := s;
        }
        i := i + 1;
      }
      assert opts[..i] == opts;
    }

    /** `Create`: sign a token for a fresh session id and store the session
        from `now` for the configured lifetime. `signed` is the signer's
        answer, `None` when signing fails; then nothing is stored. */
    method Create(u: User, id: string, now: int, signed: Option<string>) returns (r: Result<string, Error>)
      modifies this
      ensures issuer == old(issuer) && tokenLifetime == old(tokenLifetime)
      ensures signed.None? ==> r == Failure(SigningFailure) && sessions == old(sessions)
      ensures signed.Some? ==> r == Success(signed.value) && sessions == Stored(old(sessions), id, u, now, tokenLifetime)
    {
      var exp := now + tokenLifetime;
      if signed.None? {
        return Failure(SigningFailure);
      }
      sessions := sessions[id := MemorySession(now, exp, u.id)];
      r := Success(signed.value);
    }

    /** `Read`: the user behind a token, removing its session when it has
        expired. */
    method Read(parsed: Parsed, now: int, users: map<Uuid, User>) returns (r: Result<User, Error>)
      modifies this
      ensures issuer == old(issuer) && tokenLifetime == old(tokenLifetime)
      ensures (r, sessions) == ReadSession(old(sessions), parsed, now, users)
    {
      if parsed.ParseFailed? || !parsed.valid {
        return Failure(InvalidToken);
      }
      var id := parsed.sessionId;
      if id !in sessions {
        return Failure(InvalidToken);
      }
      var s := sessions[id];
      if s.expiresAt < now {
        sessions := sessions - {id};
        return Failure(InvalidToken);
      }
      if s.userId !in users {
        return Failure(InvalidToken);
      }
      r := Success(users[s.userId]);
    }
  }
}
