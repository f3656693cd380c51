/** The login limiter of app/utils.py: a process-wide dictionary from user
    name to the instants of that name's failed logins. A name is locked out
    while two or more failures lie within the last 60 seconds. Instants are
    microseconds. */
module Limiter {

  const LockoutMicros: int := 60_000_000
  const MaxFailedAttempts: nat := 2

  /** The failures still inside the lockout window at `now`, in the order
      they were recorded: those with `now - ts` under 60 seconds. */
  function Recent(stamps: seq<int>, now: int): (r: seq<int>)
    ensures |r| <= |stamps|
    ensures forall x :: x in r <==> x in stamps && now - x < LockoutMicros
    decreases |stamps|
  {
    if stamps == [] then []
    else
      var init := stamps[..|stamps| - 1];
      var last := stamps[|stamps| - 1];
      assert stamps == init + [last];
      Recent(init, now) + (if now - last < LockoutMicros then [last] else [])
  }

  /** Whether a name with these recorded failures may try to log in. */
  predicate MayAttempt(stamps: seq<int>, now: int)
  {
    |Recent(stamps, now)| < MaxFailedAttempts
  }

  /** Recording one more failure prunes nothing: the window of the longer
      list is the old window plus the new failure when it is recent. */
  lemma RecentAppend(stamps: seq<int>, x: int, now: int)
    ensures Recent(stamps + [x], now) == Recent(stamps, now) + (if now - x < LockoutMicros then [x] else [])
  {
    assert (stamps + [x])[..|stamps|] == stamps;
  }

  /** Pruning is idempotent. */
  lemma {:induction false} RecentIdempotent(stamps: seq<int>, now: int)
    ensures Recent(Recent(stamps, now), now) == Recent(stamps, now)
    decreases |stamps|
  {
    if stamps != [] {
      var init := stamps[..|stamps| - 1];
      var last := stamps[|stamps| - 1];
      RecentIdempotent(init, now);
      if now - last < LockoutMicros {
        RecentAppend(Recent(init, now), last, now);
      } else {
        assert Recent(stamps, now) == Recent(init, now);
      }
    }
  }

  /** Pruning early loses nothing a later check would keep: a failure that
      is still recent at a later instant was recent at every earlier one. */
  lemma {:induction false} RecentLater(stamps: seq<int>, now: int, later: int)
    requires now <= later
    ensures Recent(Recent(stamps, now), later) == Recent(stamps, later)
    decreases |stamps|
  {
    if stamps != [] {
      var init := stamps[..|stamps| - 1];
      var last := stamps[|stamps| - 1];
      RecentLater(init, now, later);
      if now - last < LockoutMicros {
        assert Recent(stamps, now) == Recent(init, now) + [last];
        RecentAppend(Recent(init, now), last, later);
      } else {
        assert Recent(stamps, now) == Recent(init, now);
        assert Recent(stamps, later) == Recent(init, later);
      }
    }
  }

  /** Two failures within a minute of a check lock the name out, whatever
      came before them. */
  lemma TwoRecentFailuresLock(stamps: seq<int>, t1: int, t2: int, now: int)
    requires now - t1 < LockoutMicros && now - t2 < LockoutMicros
    ensures !MayAttempt(stamps + [t1] + [t2], now)
  {
    RecentAppend(stamps, t1, now);
    RecentAppend(stamps + [t1], t2, now);
  }

  /** Once every failure is a minute old the name may try again. */
  lemma {:induction false} LockExpires(stamps: seq<int>, now: int)
    requires forall i :: 0 <= i < |stamps| ==> now - stamps[i] >= LockoutMicros
    ensures Recent(stamps, now) == [] && MayAttempt(stamps, now)
    decreases |stamps|
  {
    if stamps != [] {
      LockExpires(stamps[..|stamps| - 1], now);
    }
  }

  /** `FAILED_LOGIN_ATTEMPTS`. */
  class FailedLogins {
    var attempts: map<string, seq<int>>

    constructor ()
      ensures attempts == map[]
    {
      attempts := map[];
    }

    /** `FAILED_LOGIN_ATTEMPTS.get(username, [])`. */
    function Failures(username: string): seq<int>
      reads this
    {
      if username in attempts then attempts[username] else []
    }

    /** `can_attempt_login`: the name's list is replaced by its recent part
      (an entry is created for a name that had none), and the attempt is
      allowed while fewer than two recent failures remain. */
    method CanAttemptLogin(username: string, now: int) returns (ok: bool)
      modifies this
      ensures attempts == old(attempts)[username := Recent(old(Failures(username)), now)]
      ensures ok <==> MayAttempt(old(Failures(username)), now)
    {
      var stamps := Failures(username);
      var recent: seq<int> := [];
      var i := 0;
      while i < |stamps|
        invariant 0 <= i <= |stamps|
        invariant attempts == old(attempts) && stamps == old(Failures(username))
        invariant recent == Recent(stamps[..i], now)
      {
        assert stamps[..i + 1] == stamps[..i] + [stamps[i]];
        RecentAppend(stamps[..i], stamps[i], now);
        if now - stamps[i] < LockoutMicros {
          recent := recent + [stamps[i]];
        }
        i := i + 1;
      }
      assert stamps[..i] == stamps;
      attempts := attempts[username := recent];
      ok := |recent| < MaxFailedAttempts;
    }

    /** `record_failed_login`: one more failure at `now`. */
    method RecordFailedLogin(username: string, now: int)
      modifies this
      ensures attempts == old(attempts)[username := old(Failures(username)) + [now]]
    {
      attempts := attempts[username := Failures(username) + [now]];
    }

    /** `clear_failed_logins`: the name's entry is dropped, if there was one. */
    method ClearFailedLogins(username: string)
      modifies this
      ensures attempts == old(attempts) - {username}
    {
      attempts := attempts - {username};
    }
  }

  /** A check followed by a recorded failure leaves the recent failures
      followed by the new one; a check never lengthens a list. */
  lemma CheckThenFailure(stamps: seq<int>, now: int)
    ensures Recent(Recent(stamps, now) + [now], now) == Recent(stamps, now) + [now]
    ensures |Recent(stamps, now)| <= |stamps|
  {
    RecentAppend(Recent(stamps, now), now, now);
    RecentIdempotent(stamps, now);
  }

  /** After a name's failures are cleared, its next check is allowed and
      leaves it an empty list. */
  method ClearedNameMayAttempt(limiter: FailedLogins, username: string, now: int) returns (ok: bool)
    modifies limiter
    ensures ok
    ensures limiter.attempts == old(limiter.attempts)[username := []]
  {
    limiter.ClearFailedLogins(username);
    assert limiter.Failures(username) == [];
    ok := limiter.CanAttemptLogin(username, now);
  }
}
