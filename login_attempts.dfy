/** The lockout policy: failed attempts are counted on the user, and the fifth and
    every later failure locks the account for fifteen minutes from that failure. */
module LoginAttempts {
  import opened Wrappers
  import opened Entities
  import opened Stores

  const MAX_FAILED_ATTEMPTS := 5
  const LOCKOUT_DURATION := 15 * MILLIS_PER_MINUTE

  /** Locked while `lockedUntil` is set and lies strictly after `now`. */
  predicate IsLocked(u: User, now: Instant)
    ensures u.lockedUntil.None? ==> !IsLocked(u, now)
    ensures IsLocked(u, now) ==> now < u.lockedUntil.value
  {
    u.lockedUntil.Some? && now < u.lockedUntil.value
  }

  /** The user after one failed attempt at `now`: one more failure on the counter,
      and from the fifth failure on a lock until fifteen minutes after `now`;
      below the threshold the lock is left as it was. */
  function AfterFailedAttempt(u: User, now: Instant): (v: User)
    ensures v.failedLoginAttempts == u.failedLoginAttempts + 1
    ensures v.failedLoginAttempts >= MAX_FAILED_ATTEMPTS ==> v.lockedUntil == Some(now + LOCKOUT_DURATION)
    ensures v.failedLoginAttempts < MAX_FAILED_ATTEMPTS ==> v.lockedUntil == u.lockedUntil
    ensures v.(failedLoginAttempts := u.failedLoginAttempts, lockedUntil := u.lockedUntil) == u
  {
    var count := u.failedLoginAttempts + 1;
    if count >= MAX_FAILED_ATTEMPTS then u.(failedLoginAttempts := count, lockedUntil := Some(now + LOCKOUT_DURATION))
    else u.(failedLoginAttempts := count)
  }

  /** The user after `reset`: no failure counted and no lock; nothing else changes. */
  function AfterReset(u: User): (v: User)
    ensures v.failedLoginAttempts == 0 && v.lockedUntil.None?
    ensures v.(failedLoginAttempts := u.failedLoginAttempts, lockedUntil := u.lockedUntil) == u
  {
    u.(failedLoginAttempts := 0, lockedUntil := None)
  }

  /** A reset user is unlocked at every instant. */
  lemma ResetUnlocks(u: User, now: Instant)
    ensures !IsLocked(AfterReset(u), now)
  {
  }

  /** The comparison is strict: at the very instant the lock ends the user is free,
      and once free stays free. */
  lemma LockEndsAtLockedUntil(u: User, now: Instant, later: Instant)
    requires u.lockedUntil.Some? && u.lockedUntil.value <= now <= later
    ensures !IsLocked(u, now) && !IsLocked(u, later)
  {
  }

  /** A newly constructed user is not locked. */
  lemma NewUserNotLocked(firstName: string, lastName: string, email: string, password: string,
                         nationalId: Option<string>, registrationDate: Option<Instant>, now: Instant)
    ensures !IsLocked(NewUser(firstName, lastName, email, password, nationalId, registrationDate), now)
  {
  }

  /** A failure that reaches the threshold locks the user for exactly the fifteen
      minutes after it, whatever lock there was before (a later failure moves the
      end of the lock to fifteen minutes after itself). */
  lemma LockWindow(u: User, now: Instant, t: Instant)
    requires u.failedLoginAttempts + 1 >= MAX_FAILED_ATTEMPTS
    ensures IsLocked(AfterFailedAttempt(u, now), t) <==> t < now + LOCKOUT_DURATION
  {
  }

  /** Below the threshold a failure changes nobody's lock state. */
  lemma BelowThresholdKeepsLockState(u: User, now: Instant, t: Instant)
    requires u.failedLoginAttempts + 1 < MAX_FAILED_ATTEMPTS
    ensures IsLocked(AfterFailedAttempt(u, now), t) <==> IsLocked(u, t)
  {
  }

  /** A run of failed attempts at the given instants, in order. */
  function AfterFailures(u: User, times: seq<Instant>): User
    decreases |times|
  {
    if |times| == 0 then u else AfterFailures(AfterFailedAttempt(u, times[0]), times[1..])
  }

  /** A run of failures adds its length to the counter and touches nothing but the
      counter and the lock. */
  lemma {:induction false} FailuresCount(u: User, times: seq<Instant>)
    ensures AfterFailures(u, times).failedLoginAttempts == u.failedLoginAttempts + |times|
    ensures AfterFailures(u, times).(failedLoginAttempts := u.failedLoginAttempts, lockedUntil := u.lockedUntil) == u
    decreases |times|
  {
    if |times| > 0 {
      FailuresCount(AfterFailedAttempt(u, times[0]), times[1..]);
    }
  }

  /** Once a run has reached the threshold, the lock ends fifteen minutes after its
      last failure. */
  lemma {:induction false} FailuresLockFromLast(u: User, times: seq<Instant>)
    requires |times| > 0 && u.failedLoginAttempts >= 0
    requires u.failedLoginAttempts + |times| >= MAX_FAILED_ATTEMPTS
    ensures AfterFailures(u, times).lockedUntil == Some(times[|times| - 1] + LOCKOUT_DURATION)
    decreases |times|
  {
    var v := AfterFailedAttempt(u, times[0]);
    if |times| == 1 {
      assert AfterFailures(u, times) == AfterFailures(v, []);
    } else {
      FailuresLockFromLast(v, times[1..]);
    }
  }

  /** Five failures in a row from a clean counter lock the account at the fifth,
      until fifteen minutes after it. */
  lemma {:induction false} FiveFailuresLock(u: User, times: seq<Instant>, t: Instant)
    requires u.failedLoginAttempts == 0 && |times| == MAX_FAILED_ATTEMPTS
    requires times[|times| - 1] <= t
    ensures AfterFailures(u, times).failedLoginAttempts == MAX_FAILED_ATTEMPTS
    ensures IsLocked(AfterFailures(u, times), t) <==> t < times[|times| - 1] + LOCKOUT_DURATION
  {
    FailuresCount(u, times);
    FailuresLockFromLast(u, times);
  }

  /** Four failures from a clean counter do not lock a user who had no lock. */
  lemma {:induction false} FourFailuresDoNotLock(u: User, times: seq<Instant>, t: Instant)
    requires u.failedLoginAttempts == 0 && u.lockedUntil.None? && |times| == MAX_FAILED_ATTEMPTS - 1
    ensures !IsLocked(AfterFailures(u, times), t)
  {
    var u1 := AfterFailedAttempt(u, times[0]);
    var u2 := AfterFailedAttempt(u1, times[1]);
    var u3 := AfterFailedAttempt(u2, times[2]);
    var u4 := AfterFailedAttempt(u3, times[3]);
    assert AfterFailures(u, times) == AfterFailures(u1, times[1..]);
    assert AfterFailures(u1, times[1..]) == AfterFailures(u2, times[2..]) by { assert times[1..][1..] == times[2..]; }
    assert AfterFailures(u2, times[2..]) == AfterFailures(u3, times[3..]) by { assert times[2..][1..] == times[3..]; }
    assert AfterFailures(u3, times[3..]) == AfterFailures(u4, times[4..]) by { assert times[3..][1..] == times[4..]; }
    assert times[4..] == [];
  }

  /** The service: each call changes the user it is given and saves it. */
  class LoginAttemptService {
    const users: UserRepository

    constructor (users: UserRepository)
      ensures this.users == users
    {
      this.users := users;
    }

    /** The stored user is replaced by the updated one; nobody else changes. */
    method RecordFailedAttempt(user: User, now: Instant)
      requires users.Valid()
      modifies users
      ensures users.Valid()
      ensures var s := SaveUser(old(users.rows), old(users.nextId), AfterFailedAttempt(user, now), now);
        users.rows == s.rows && users.nextId == s.nextId
      ensures user.userId.Some? && old(users.FindById(user.userId.value)).Some? ==>
        && users.FindById(user.userId.value) == Some(AfterFailedAttempt(user, now))
        && (forall id :: id != user.userId.value ==> users.FindById(id) == old(users.FindById(id)))
    {
      var updated := AfterFailedAttempt(user, now);
      UpsertSpec(users.rows, users.nextId, UserKey, updated, InsertedUser(updated, users.nextId, now));
      var _ := users.Save(updated, now);
    }

    method Reset(user: User, now: Instant)
      requires users.Valid()
      modifies users
      ensures users.Valid()
      ensures var s := SaveUser(old(users.rows), old(users.nextId), AfterReset(user), now);
        users.rows == s.rows && users.nextId == s.nextId
      ensures user.userId.Some? && old(users.FindById(user.userId.value)).Some? ==>
        && users.FindById(user.userId.value) == Some(AfterReset(user))
        && (forall id :: id != user.userId.value ==> users.FindById(id) == old(users.FindById(id)))
    {
      var updated := AfterReset(user);
      UpsertSpec(users.rows, users.nextId, UserKey, updated, InsertedUser(updated, users.nextId, now));
      var _ := users.Save(updated, now);
    }
  }
}
