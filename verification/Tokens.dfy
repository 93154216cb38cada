/** Signed claims with a validity window, and the filter in front of every request. */
module Tokens {
  import opened Clock
  import opened Identity
  import opened Wrappers

  const ACCESS: string := "access"
  const PENDING_2FA: string := "2fa_pending"

  const ISSUER: string := "skolva"

  datatype Claims = Claims(subject: UserId, issuer: string, kind: string, notBefore: Time, expiresAt: Time)

  /** A token and the key it was signed with: only holders of a key can sign with it. */
  datatype Token = Token(claims: Claims, key: int)

  datatype TokenManager = TokenManager(key: int, accessTTL: int)

  /** Numeric dates keep whole seconds. */
  function Issue(tm: TokenManager, subject: UserId, kind: string, ttl: int, now: Time): Token {
    Token(Claims(subject, ISSUER, kind, ToSeconds(now), ToSeconds(now + ttl)), tm.key)
  }

  function Verify(tm: TokenManager, t: Token, now: Time): Option<Claims> {
    if t.key == tm.key && t.claims.issuer == ISSUER && t.claims.notBefore <= now < t.claims.expiresAt
    then Some(t.claims)
    else None
  }

  /** The request verifier: the actor a token stands for, if it is a valid access token. */
  function Actor(tm: TokenManager, t: Token, now: Time): Option<UserId> {
    var claims := Verify(tm, t, now);
    if claims.Some? && claims.value.kind == ACCESS then Some(claims.value.subject) else None
  }

  /** A token verifies exactly with this key, this issuer, and in its window. */
  lemma VerifiesExactly(tm: TokenManager, t: Token, now: Time)
    ensures
      Verify(tm, t, now).Some? <==>
        t.key == tm.key && t.claims.issuer == "skolva" && t.claims.notBefore <= now < t.claims.expiresAt
    ensures Verify(tm, t, now).Some? ==> Verify(tm, t, now).value == t.claims
  {
  }

  /** A token is good from its issue until its lifetime ends, but for the second that is cut off. */
  lemma Lifetime(tm: TokenManager, subject: UserId, kind: string, ttl: int, now: Time, later: Time)
    ensures
      var ok := Verify(tm, Issue(tm, subject, kind, ttl, now), later).Some?;
      && (ok ==> now - SECOND < later < now + ttl)
      && (now <= later <= now + ttl - SECOND ==> ok)
  {
  }

  /** A request gets an access token's subject for its lifetime, and nothing for a pending token. */
  lemma IssuedActor(tm: TokenManager, subject: UserId, kind: string, ttl: int, now: Time, later: Time)
    ensures
      var actor := Actor(tm, Issue(tm, subject, kind, ttl, now), later);
      && (actor.Some? ==> kind == ACCESS && actor.value == subject && now - SECOND < later < now + ttl)
      && (kind == ACCESS && now <= later <= now + ttl - SECOND ==> actor.Some?)
      && (kind == PENDING_2FA ==> actor.None?)
  {
    Lifetime(tm, subject, kind, ttl, now, later);
    assert ACCESS[0] != PENDING_2FA[0];
  }
}
