/** Sequences of login attempts against the throttle, without collaborator
    exceptions: what the failure counter and the deactivated set are after
    any such sequence. */
module LoginThrottleRuns {
  import opened Basics
  import opened LoginThrottle

  /** One request the login controller handles, by the submitted username. */
  datatype Attempt = FailedLogin(username: string) | SuccessfulLogin(username: string)

  function Apply(s: Store, limit: nat, users: map<string, UserId>, a: Attempt): Store {
    match a
    case FailedLogin(name) => Failure(s, limit, users, name, None)
    case SuccessfulLogin(name) => Success(s, users, name, None)
  }

  /** The state after the attempts, applied in order. */
  function Run(s: Store, limit: nat, users: map<string, UserId>, attempts: seq<Attempt>): Store
    decreases |attempts|
  {
    if attempts == [] then s
    else Apply(Run(s, limit, users, attempts[..|attempts| - 1]), limit, users, attempts[|attempts| - 1])
  }

  /** The attempt is made with a username that resolves to `id`. */
  predicate IsFor(users: map<string, UserId>, a: Attempt, id: UserId) {
    a.username in users && users[a.username] == id
  }

  /** The number of failed attempts for `id` at the end of `attempts` since
      the last successful one for `id`. */
  function Streak(users: map<string, UserId>, attempts: seq<Attempt>, id: UserId): nat
    decreases |attempts|
  {
    if attempts == [] then 0
    else
      var rest := Streak(users, attempts[..|attempts| - 1], id);
      var a := attempts[|attempts| - 1];
      if !IsFor(users, a, id) then rest
      else if a.FailedLogin? then rest + 1
      else 0
  }

  /** Some prefix of `attempts` ends with more than `limit` failures for `id`
      and no success for `id` among them. */
  ghost predicate EverExceeded(limit: nat, users: map<string, UserId>, attempts: seq<Attempt>, id: UserId) {
    exists j | 1 <= j <= |attempts| :: Streak(users, attempts[..j], id) > limit
  }

  function Min(a: int, b: int): int {
    if a <= b then a else b
  }

  lemma {:induction false} EverExceededSnoc(limit: nat, users: map<string, UserId>,
                                            attempts: seq<Attempt>, id: UserId)
    requires attempts != []
    ensures var prefix := attempts[..|attempts| - 1];
      EverExceeded(limit, users, attempts, id) <==>
        EverExceeded(limit, users, prefix, id) || Streak(users, attempts, id) > limit
  {
    var n := |attempts|;
    var prefix := attempts[..n - 1];
    if EverExceeded(limit, users, attempts, id) {
      var j :| 1 <= j <= n && Streak(users, attempts[..j], id) > limit;
      if j == n {
        assert attempts[..j] == attempts;
      } else {
        assert prefix[..j] == attempts[..j];
      }
    }
    if EverExceeded(limit, users, prefix, id) {
      var j :| 1 <= j <= n - 1 && Streak(users, prefix[..j], id) > limit;
      assert prefix[..j] == attempts[..j];
    }
    if Streak(users, attempts, id) > limit {
      assert attempts[..n] == attempts;
    }
  }

  /** A streak past the threshold has already been seen by EverExceeded. */
  lemma StreakInEverExceeded(limit: nat, users: map<string, UserId>, attempts: seq<Attempt>, id: UserId)
    requires Streak(users, attempts, id) > limit
    ensures EverExceeded(limit, users, attempts, id)
  {
    assert attempts[..|attempts|] == attempts;
  }

  /** From a zero count and an active account, the stored count of `id` is
      its current failure streak capped at the threshold, and `id` is
      deactivated exactly when some streak went past the threshold: it takes
      limit + 1 failures with no success in between. */
  lemma {:induction false} RunTracksStreak(s: Store, limit: nat, users: map<string, UserId>,
                                           attempts: seq<Attempt>, id: UserId)
    requires CountOf(s.counters, id) == 0
    ensures CountOf(Run(s, limit, users, attempts).counters, id) == Min(Streak(users, attempts, id), limit)
    ensures id in Run(s, limit, users, attempts).deactivated <==>
              id in s.deactivated || EverExceeded(limit, users, attempts, id)
    decreases |attempts|
  {
    if attempts == [] {
      return;
    }
    var n := |attempts|;
    var prefix := attempts[..n - 1];
    var a := attempts[n - 1];
    RunTracksStreak(s, limit, users, prefix, id);
    EverExceededSnoc(limit, users, attempts, id);
    var before := Run(s, limit, users, prefix);
    if Streak(users, prefix, id) > limit {
      StreakInEverExceeded(limit, users, prefix, id);
    }
    if !IsFor(users, a, id) {
      // The attempt changes another user's entries, or none.
      var after := Apply(before, limit, users, a);
      if a.username in users {
        var other := users[a.username];
        assert id in after.counters <==> id in after.counters - {other};
        assert id in before.counters <==> id in before.counters - {other};
        assert id in after.deactivated <==> id in after.deactivated - {other};
        if id in after.counters {
          assert after.counters[id] == (after.counters - {other})[id];
        }
      }
    }
  }

  /** The throttle scenario: from a zero count and an active account, k
      failures in a row leave the count at k (at most the threshold) and the
      account active while k <= limit; failure limit + 1 deactivates it. */
  lemma {:induction false} ConsecutiveFailures(s: Store, limit: nat, users: map<string, UserId>,
                                               username: string, k: nat)
    requires username in users
    requires CountOf(s.counters, users[username]) == 0 && users[username] !in s.deactivated
    ensures CountOf(Run(s, limit, users, seq(k, _ => FailedLogin(username))).counters, users[username]) == Min(k, limit)
    ensures users[username] in Run(s, limit, users, seq(k, _ => FailedLogin(username))).deactivated <==> k > limit
  {
    var id := users[username];
    var attempts := seq(k, _ => FailedLogin(username));
    RunTracksStreak(s, limit, users, attempts, id);
    forall j | 0 <= j <= k
      ensures Streak(users, attempts[..j], id) == j
    {
      StreakOfFailures(users, username, attempts[..j]);
    }
    if k > limit {
      assert Streak(users, attempts[..k], id) > limit;
    }
  }

  lemma {:induction false} StreakOfFailures(users: map<string, UserId>, username: string, attempts: seq<Attempt>)
    requires username in users
    requires forall i | 0 <= i < |attempts| :: attempts[i] == FailedLogin(username)
    ensures Streak(users, attempts, users[username]) == |attempts|
    decreases |attempts|
  {
    if attempts != [] {
      StreakOfFailures(users, username, attempts[..|attempts| - 1]);
    }
  }

  /** Starting from counts in range, every run keeps every stored count in
      0..limit. */
  lemma {:induction false} RunKeepsCountsInRange(s: Store, limit: nat, users: map<string, UserId>,
                                                 attempts: seq<Attempt>)
    requires CountsInRange(s.counters, limit)
    ensures CountsInRange(Run(s, limit, users, attempts).counters, limit)
    decreases |attempts|
  {
    if attempts != [] {
      var prefix := attempts[..|attempts| - 1];
      RunKeepsCountsInRange(s, limit, users, prefix);
    }
  }
}
