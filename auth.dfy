/**
 * `GigaChatAuth`: the access-token cache. Time is an integer number of
 * milliseconds supplied by the caller; the token exchange is the reply the
 * OAuth endpoint gives, passed in as a value.
 */
module Auth {
  import opened Wrappers

  /** Five minutes (`TOKEN_REFRESH_BUFFER_MINUTES`), in milliseconds. */
  const RefreshBufferMs: int := 5 * 60 * 1000
  /** The lifetime assumed when the reply carries no `expires_at`: thirty minutes. */
  const DefaultLifetimeMs: int := 30 * 60 * 1000

  /**
   * What `requests.post` to the OAuth endpoint yields: a status with, when
   * the body has them, `access_token` and `expires_at` (milliseconds since
   * the epoch); a `Timeout`; or any other exception of the request or of
   * `response.json()` (a failed connection, a body that is not JSON).
   */
  datatype TokenReply =
    | Reply(status: int, accessToken: Option<string>, expiresAtMs: Option<int>)
    | ReplyTimedOut
    | ReplyFailed

  /** Why fetching a token raised. */
  datatype AuthError =
    | AuthTimeout           // requests.exceptions.Timeout
    | AuthStatus(code: int) // the `Exception` for a status other than 200
    | NoAccessToken         // the `KeyError` of `data["access_token"]`
    | RequestFailed         // any other exception of the request or of `response.json()`

  /** The two cached fields, `_token` and `_token_expires_at`. */
  datatype Cache = Cache(token: Option<string>, expiresAt: Option<int>)

  /** No token, an empty token, or no expiry. */
  predicate Unset(c: Cache) {
    c.token.None? || c.token == Some("") || c.expiresAt.None?
  }

  /** The `token` property fetches when the cache is unset or within the buffer of expiry. */
  predicate NeedsRefresh(c: Cache, now: int) {
    Unset(c) || now >= c.expiresAt.value - RefreshBufferMs
  }

  /** `_fetch_token()` at time `now`: the new cache, or the error it raises with the cache untouched. */
  function Fetch(now: int, reply: TokenReply): (r: Result<Cache, AuthError>)
    ensures r.Success? <==> reply.Reply? && reply.status == 200 && reply.accessToken.Some?
    ensures r.Success? ==> r.value.token == reply.accessToken && r.value.expiresAt.Some?
    ensures r.Success? ==>
      r.value.expiresAt.value == if reply.expiresAtMs.Some? then reply.expiresAtMs.value else now + DefaultLifetimeMs
    ensures reply.Reply? && reply.status != 200 ==> r == Failure(AuthStatus(reply.status))
    ensures reply.Reply? && reply.status == 200 && reply.accessToken.None? ==> r == Failure(NoAccessToken)
    ensures reply.ReplyTimedOut? ==> r == Failure(AuthTimeout)
    ensures reply.ReplyFailed? ==> r == Failure(RequestFailed)
    ensures r.Failure? ==> (r.error == AuthTimeout <==> reply.ReplyTimedOut?)
  {
    match reply
    case ReplyTimedOut => Failure(AuthTimeout)
    case ReplyFailed => Failure(RequestFailed)
    case Reply(status, access, expires) =>
      if status != 200 then Failure(AuthStatus(status))
      else if access.None? then Failure(NoAccessToken)
      else
        var expiresAt := if expires.Some? then expires.value else now + DefaultLifetimeMs;
        Success(Cache(access, Some(expiresAt)))
  }

  /** What one read of the `token` property does: the new cache and the token or error. */
  datatype Lookup = Lookup(cache: Cache, token: Result<string, AuthError>)

  /** The `token` property at time `now`, given the reply a fetch would receive. */
  function TokenStep(c: Cache, now: int, reply: TokenReply): (r: Lookup)
    ensures !NeedsRefresh(c, now) ==> r == Lookup(c, Success(c.token.value))
    ensures NeedsRefresh(c, now) && Fetch(now, reply).Failure? ==> r == Lookup(c, Failure(Fetch(now, reply).error))
    ensures NeedsRefresh(c, now) && Fetch(now, reply).Success? ==>
      r.cache == Fetch(now, reply).value && r.token == Success(reply.accessToken.value)
  {
    if !NeedsRefresh(c, now) then Lookup(c, Success(c.token.value))
    else
      match Fetch(now, reply)
      case Failure(e) => Lookup(c, Failure(e))
      case Success(c') => Lookup(c', Success(c'.token.value))
  }

  class GigaChatAuth {
    var token: Option<string>
    var expiresAt: Option<int>

    function State(): Cache
      reads this
    {
      Cache(token, expiresAt)
    }

    /** A new cache holds neither a token nor an expiry. */
    constructor ()
      ensures token.None? && expiresAt.None?
    {
      token := None;
      expiresAt := None;
    }

    /** The `token` property: fetch when needed, then return the cached token. */
    method Token(now: int, reply: TokenReply) returns (r: Result<string, AuthError>)
      modifies this
      ensures Lookup(State(), r) == TokenStep(old(State()), now, reply)
    {
      if token.None? || token == Some("") || expiresAt.None? || now >= expiresAt.value - RefreshBufferMs {
        var fetched := Fetch(now, reply);
        if fetched.Failure? {
          return Failure(fetched.error);
        }
        token := fetched.value.token;
        expiresAt := fetched.value.expiresAt;
      }
      r := Success(token.value);
    }

    /** `self.auth._token = None`, as `audit` does after a 401. */
    method Invalidate()
      modifies this
      ensures token.None? && expiresAt == old(expiresAt)
    {
      token := None;
    }
  }

  /**
   * A token fetched without `expires_at` is served from the cache, with the
   * cache unchanged, for the next twenty-five minutes.
   */
  lemma ReusedForTwentyFiveMinutes(c: Cache, fetchedAt: int, reply: TokenReply, later: int, next: TokenReply)
    requires NeedsRefresh(c, fetchedAt)
    requires reply.Reply? && reply.status == 200 && reply.accessToken.Some? && reply.accessToken.value != ""
    requires reply.expiresAtMs.None?
    requires fetchedAt <= later < fetchedAt + DefaultLifetimeMs - RefreshBufferMs
    ensures var c' := TokenStep(c, fetchedAt, reply).cache;
      TokenStep(c', later, next) == Lookup(c', Success(reply.accessToken.value))
  {
    var c' := TokenStep(c, fetchedAt, reply).cache;
    assert c'.expiresAt == Some(fetchedAt + DefaultLifetimeMs);
  }

  /** From the five-minute mark before expiry on, every read fetches. */
  lemma RefreshesNearExpiry(c: Cache, now: int, reply: TokenReply)
    requires c.token.Some? && c.expiresAt.Some?
    requires now >= c.expiresAt.value - RefreshBufferMs
    ensures TokenStep(c, now, reply) == match Fetch(now, reply)
      case Success(c') => Lookup(c', Success(reply.accessToken.value))
      case Failure(e) => Lookup(c, Failure(e))
  {
  }

  /** A read of an invalidated or empty token always goes to the endpoint. */
  lemma UnsetAlwaysFetches(c: Cache, now: int, reply: TokenReply)
    requires c.token.None? || c.token == Some("")
    ensures TokenStep(c, now, reply).token == (match Fetch(now, reply)
      case Success(c') => Success(reply.accessToken.value)
      case Failure(e) => Failure(e))
  {
  }

  /** A refused exchange raises before either field is written. */
  lemma RefusedLeavesCache(c: Cache, now: int, reply: TokenReply)
    requires reply.Reply? && reply.status != 200
    ensures TokenStep(c, now, reply).cache == c
    ensures NeedsRefresh(c, now) <==> TokenStep(c, now, reply).token == Failure(AuthStatus(reply.status))
  {
  }

  /** A served token is never empty unless the endpoint itself issued an empty one. */
  lemma ServedTokenNonEmpty(c: Cache, now: int, reply: TokenReply)
    requires TokenStep(c, now, reply).token.Success?
    requires reply.Reply? ==> reply.accessToken != Some("")
    ensures TokenStep(c, now, reply).token.value != ""
    ensures TokenStep(c, now, reply).cache.token == Some(TokenStep(c, now, reply).token.value)
  {
  }
}
