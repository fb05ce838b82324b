/** The refresh-token store: tokens valid for seven days, looked up by their string,
    revoked one by one, per user, or in a sweep of the expired ones. */
module RefreshTokens {
  import opened Wrappers
  import opened Errors
  import opened Entities
  import opened Stores

  const REFRESH_TOKEN_DURATION := 7 * MILLIS_PER_DAY

  const INVALID_REFRESH_TOKEN := "Invalid or expired refresh token"
  const REFRESH_TOKEN_EXPIRED := "Refresh token has expired."

  /** `verifyExpiration`'s test: the expiry lies strictly before `now`. */
  predicate ExpiresBefore(t: RefreshToken, now: Instant) {
    t.expiryDate < now
  }

  /** A second sweep at the same instant finds nothing left to remove. */
  lemma SweepIsIdempotent(tokens: map<string, RefreshToken>, now: Instant)
    ensures ExpiredBefore(tokens - ExpiredBefore(tokens, now), now) == {}
  {
  }

  /** Revoking one user's tokens leaves every other user's tokens as they were. */
  lemma RevokeSparesOthers(tokens: map<string, RefreshToken>, userId: int, other: int)
    requires other != userId
    ensures OwnedBy(tokens - OwnedBy(tokens, userId), userId) == {}
    ensures OwnedBy(tokens - OwnedBy(tokens, userId), other) == OwnedBy(tokens, other)
    ensures forall t :: t in OwnedBy(tokens, other) ==> (tokens - OwnedBy(tokens, userId))[t] == tokens[t]
  {
  }

  class RefreshTokenService {
    const tokens: RefreshTokenRepository
    const users: UserRepository

    constructor (tokens: RefreshTokenRepository, users: UserRepository)
      ensures this.tokens == tokens && this.users == users
    {
      this.tokens := tokens;
      this.users := users;
    }

    /** A new token for `user` under the unused string `uuid`, expiring seven days
        from now; every stored token stays as it was. */
    method CreateRefreshToken(user: User, now: Instant, uuid: string) returns (t: RefreshToken)
      requires tokens.Valid() && user.userId.Some? && uuid !in tokens.tokens
      modifies tokens
      ensures tokens.Valid()
      ensures t == RefreshToken(uuid, user.userId.value, now + REFRESH_TOKEN_DURATION)
      ensures tokens.tokens == old(tokens.tokens)[uuid := t]
      ensures |tokens.tokens| == |old(tokens.tokens)| + 1
    {
      t := RefreshToken(uuid, user.userId.value, now + REFRESH_TOKEN_DURATION);
      tokens.Save(t);
    }

    /** `findByToken`, delegated to the repository. */
    function FindByToken(token: string): (r: Option<RefreshToken>)
      reads tokens
      ensures r.Some? <==> token in tokens.tokens
      ensures r.Some? ==> r.value == tokens.tokens[token]
      ensures tokens.Valid() && r.Some? ==> r.value.token == token
    {
      tokens.FindByToken(token)
    }

    /** The stored token, if it is still strictly before its expiry. */
    function ValidateAndGetToken(token: string, now: Instant): (r: Fallible<RefreshToken>)
      reads tokens
      ensures r.Success? <==> token in tokens.tokens && now < tokens.tokens[token].expiryDate
      ensures r.Success? ==> r.value == tokens.tokens[token]
      ensures r.Failure? ==> r.error == Error(Unclassified, INVALID_REFRESH_TOKEN)
    {
      match tokens.FindByToken(token)
      case Some(t) =>
        if now < t.expiryDate then Success(t) else Failure(Error(Unclassified, INVALID_REFRESH_TOKEN))
      case None => Failure(Error(Unclassified, INVALID_REFRESH_TOKEN))
    }

    /** An expired token is deleted and refused; any other is returned untouched. */
    method VerifyExpiration(t: RefreshToken, now: Instant) returns (r: Fallible<RefreshToken>)
      requires tokens.Valid()
      modifies tokens
      ensures tokens.Valid()
      ensures ExpiresBefore(t, now) ==>
        r == Failure(Error(TokenExpired, REFRESH_TOKEN_EXPIRED)) && tokens.tokens == old(tokens.tokens) - {t.token}
      ensures !ExpiresBefore(t, now) ==> r == Success(t) && tokens.tokens == old(tokens.tokens)
    {
      if t.expiryDate < now {
        tokens.Delete(t);
        return Failure(Error(TokenExpired, REFRESH_TOKEN_EXPIRED));
      }
      return Success(t);
    }

    /** An unknown user is refused; otherwise that user's tokens go and their
        number is returned. */
    method DeleteByUserId(userId: int) returns (r: Fallible<int>)
      requires tokens.Valid()
      modifies tokens
      ensures tokens.Valid()
      ensures users.FindById(userId).None? ==>
        r == Failure(Error(UserNotFound, "User not found")) && tokens.tokens == old(tokens.tokens)
      ensures users.FindById(userId).Some? ==>
        && r == Success(|OwnedBy(old(tokens.tokens), userId)|)
        && tokens.tokens == old(tokens.tokens) - OwnedBy(old(tokens.tokens), userId)
    {
      if users.FindById(userId).None? {
        return Failure(Error(UserNotFound, "User not found"));
      }
      var count := tokens.DeleteByUser(userId);
      return Success(count);
    }

    method DeleteToken(t: RefreshToken)
      requires tokens.Valid()
      modifies tokens
      ensures tokens.Valid()
      ensures tokens.tokens == old(tokens.tokens) - {t.token}
    {
      tokens.Delete(t);
    }

    method RevokeAllTokensForUser(user: User)
      requires tokens.Valid() && user.userId.Some?
      modifies tokens
      ensures tokens.Valid()
      ensures tokens.tokens == old(tokens.tokens) - OwnedBy(old(tokens.tokens), user.userId.value)
    {
      var _ := tokens.DeleteByUser(user.userId.value);
    }

    /** Removes exactly the tokens that expired strictly before now, and counts them. */
    method DeleteAllExpiredTokens(now: Instant) returns (count: int)
      requires tokens.Valid()
      modifies tokens
      ensures tokens.Valid()
      ensures tokens.tokens == old(tokens.tokens) - ExpiredBefore(old(tokens.tokens), now)
      ensures count == |ExpiredBefore(old(tokens.tokens), now)|
      ensures ExpiredBefore(tokens.tokens, now) == {}
    {
      var expired := ExpiredBefore(tokens.tokens, now);
      tokens.DeleteAll(expired);
      count := |expired|;
    }
  }

  /** The two expiry tests disagree only at the instant of expiry itself: there
      `validateAndGetToken` refuses the token while `verifyExpiration` keeps it. */
  lemma ExpiryBoundary(s: RefreshTokenService, token: string, now: Instant)
    requires token in s.tokens.tokens
    ensures var t := s.tokens.tokens[token];
      s.ValidateAndGetToken(token, now).Failure? && !ExpiresBefore(t, now) <==> t.expiryDate == now
  {
  }
}
