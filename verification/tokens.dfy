/** The access-token cache of the Zoom client (`_get_access_token` in
    `src/zoom_client.py`). Instants are whole seconds; the two clock reads
    of the source are parameters: `now` for the validity test and
    `issuedAt` for the expiry computed after a refresh. */
module Tokens {
  import opened Base

  /** The safety margin taken off the token's lifetime. */
  const ExpiryMargin: int := 300

  /** The client's `access_token` and `token_expiry`. */
  datatype TokenCache = TokenCache(token: Option<string>, expiry: Option<int>)

  /** The cache a client starts with. */
  const EmptyCache: TokenCache := TokenCache(None, None)

  /** What the client reads from the token endpoint's reply. */
  datatype TokenReply = TokenReply(status: int, accessToken: Option<string>, expiresIn: Option<int>)

  datatype TokenError = HttpError(status: int) | MissingKey(key: string)

  /** The token returned (or the error raised), the cache afterwards, and
      whether the token endpoint was asked. */
  datatype TokenStep = TokenStep(result: Result<string, TokenError>, cache: TokenCache, requested: bool)

  /** The cached token may be reused: there is a non-empty token, an expiry,
      and the expiry is still ahead. */
  predicate Usable(cache: TokenCache, now: int) {
    Truthy(cache.token) && cache.expiry.Some? && now < cache.expiry.value
  }

  /** `_get_access_token`: a usable cached token is returned without a
      request; otherwise the endpoint is asked, the new token is stored
      first and the expiry, `expires_in - 300` seconds after `issuedAt`,
      second, so a reply without `expires_in` leaves the new token beside
      the old expiry. */
  function GetAccessToken(cache: TokenCache, now: int, issuedAt: int, reply: TokenReply): (s: TokenStep)
    ensures !s.requested <==> Usable(cache, now)
    ensures !s.requested ==> s.cache == cache && s.result == Ok(cache.token.value)
    ensures s.requested ==>
      (s.result.Ok? <==> !RaisesForStatus(reply.status) && reply.accessToken.Some? && reply.expiresIn.Some?)
    ensures s.requested && s.result.Ok? ==>
      && s.result.value == reply.accessToken.value
      && s.cache == TokenCache(reply.accessToken, Some(issuedAt + reply.expiresIn.value - ExpiryMargin))
    ensures s.requested && s.result.Err? ==>
      s.cache.expiry == cache.expiry && (s.cache.token == cache.token || s.cache.token == reply.accessToken)
  {
    if Usable(cache, now) then TokenStep(Ok(cache.token.value), cache, false)
    else if RaisesForStatus(reply.status) then TokenStep(Err(HttpError(reply.status)), cache, true)
    else if reply.accessToken.None? then TokenStep(Err(MissingKey("access_token")), cache, true)
    else
      var withToken := cache.(token := reply.accessToken);
      if reply.expiresIn.None? then TokenStep(Err(MissingKey("expires_in")), withToken, true)
      else
        var expiry := issuedAt + reply.expiresIn.value - ExpiryMargin;
        TokenStep(Ok(reply.accessToken.value), withToken.(expiry := Some(expiry)), true)
  }

  /** The first call of a client always asks for a token. */
  lemma FirstCallRequests(now: int, issuedAt: int, reply: TokenReply)
    ensures GetAccessToken(EmptyCache, now, issuedAt, reply).requested
  {
  }

  /** After a refresh with a non-empty token and lifetime `e`, a later call
      at `t` reuses the token exactly when `t < issuedAt + e - 300`, and then
      asks nothing and returns the same token. */
  lemma ReuseWindow(cache: TokenCache, now: int, issuedAt: int, reply: TokenReply, t: int, next: TokenReply)
    requires GetAccessToken(cache, now, issuedAt, reply).requested
    requires GetAccessToken(cache, now, issuedAt, reply).result.Ok?
    requires GetAccessToken(cache, now, issuedAt, reply).result.value != ""
    ensures var s := GetAccessToken(cache, now, issuedAt, reply);
      var later := GetAccessToken(s.cache, t, t, next);
      && (!later.requested <==> t < issuedAt + reply.expiresIn.value - ExpiryMargin)
      && (!later.requested ==> later.result == s.result)
  {
  }

  /** A token granted for 300 seconds or less is never reused: every call
      from the moment it was issued asks again. */
  lemma ShortLivedTokenNotReused(cache: TokenCache, now: int, issuedAt: int, reply: TokenReply, t: int, next: TokenReply)
    requires GetAccessToken(cache, now, issuedAt, reply).result.Ok?
    requires GetAccessToken(cache, now, issuedAt, reply).requested
    requires reply.expiresIn.value <= ExpiryMargin && issuedAt <= t
    ensures GetAccessToken(GetAccessToken(cache, now, issuedAt, reply).cache, t, t, next).requested
  {
  }
}
