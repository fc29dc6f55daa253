/** The failed-login throttle: around-advices on the login controller's
    authentication-failure and authentication-success handlers that count
    consecutive failures per user in a cache, deactivate the account once the
    count passes `blockAfterFailedLogins`, and reset the count on success. */
module LoginThrottle {
  import opened Basics

  /** The exception text the failure advice turns into an error flash message. */
  const MAX_FAILED_LOGINS_MESSAGE := "You have reached the maximum number of failed logins."

  /** The collaborator calls of the advices that can throw. OpenCounter stands
      for resolving the user's identifier, opening the counter cache and, on
      the failure path, reading the entry; all of them leave nothing changed. */
  datatype Call = LookUpUser | OpenCounter | Deactivate | StoreCounter

  /** A collaborator exception: the call that throws it and its message. */
  datatype Fault = Fault(call: Call, message: string)

  /** What one invocation of the wrapped controller action does. */
  datatype ActionResult = Returned(value: string) | Raised(message: string)

  /** How an advice ends: how often it invoked the wrapped action, and what
      it returns (or lets propagate) to its caller. */
  datatype Advice = Advice(invocations: nat, response: ActionResult)

  /** The state the advices act on: the failed-logins cache, the set of
      deactivated accounts, and the flash messages added so far. */
  datatype Store = Store(counters: map<UserId, int>, deactivated: set<UserId>, flash: seq<string>)

  predicate Throws(fault: Option<Fault>, call: Call) {
    fault.Some? && fault.value.call == call
  }

  /** The `(int)` cast of a cache read: an absent entry counts as 0. */
  function CountOf(counters: map<UserId, int>, id: UserId): int {
    if id in counters then counters[id] else 0
  }

  /** Every stored failure count lies in 0..limit. */
  ghost predicate CountsInRange(counters: map<UserId, int>, limit: nat) {
    forall id | id in counters :: 0 <= counters[id] <= limit
  }

  /** Only the entries of user `id` differ between `s` and `t`. */
  ghost predicate OnlyUserChanged(s: Store, t: Store, id: UserId) {
    && t.counters - {id} == s.counters - {id}
    && t.deactivated - {id} == s.deactivated - {id}
  }

  /** The catch block of the failure advice: the exception's message becomes
      one more flash message. */
  function Report(s: Store, message: string): Store {
    s.(flash := s.flash + [message])
  }

  /** The state change of the failure advice (its try and catch blocks), for
      a login attempt with `username` and threshold `limit`; `fault` is the
      collaborator call that throws, if any. */
  function Failure(s: Store, limit: nat, users: map<string, UserId>, username: string,
                   fault: Option<Fault>): (t: Store)
    ensures username !in users ==> t.counters == s.counters && t.deactivated == s.deactivated
    ensures username in users ==> OnlyUserChanged(s, t, users[username])
    ensures s.deactivated <= t.deactivated
    ensures CountsInRange(s.counters, limit) ==> CountsInRange(t.counters, limit)
    ensures s.flash <= t.flash && |t.flash| <= |s.flash| + 1
  {
    if Throws(fault, LookUpUser) then Report(s, fault.value.message)
    else if username !in users then s
    else
      var id := users[username];
      if Throws(fault, OpenCounter) then Report(s, fault.value.message)
      else
        var failedLoginsCount := CountOf(s.counters, id) + 1;
        if failedLoginsCount > limit then
          if Throws(fault, Deactivate) then Report(s, fault.value.message)
          else Report(s.(deactivated := s.deactivated + {id}), MAX_FAILED_LOGINS_MESSAGE)
        else if Throws(fault, StoreCounter) then Report(s, fault.value.message)
        else s.(counters := s.counters[id := failedLoginsCount])
  }

  /** The state change of the success advice; its catch block ignores every
      collaborator exception. */
  function Success(s: Store, users: map<string, UserId>, username: string,
                   fault: Option<Fault>): (t: Store)
    ensures t.deactivated == s.deactivated && t.flash == s.flash
    ensures username !in users ==> t == s
    ensures username in users ==> OnlyUserChanged(s, t, users[username])
    ensures forall id | id in t.counters :: t.counters[id] == 0 || (id in s.counters && t.counters[id] == s.counters[id])
  {
    if Throws(fault, LookUpUser) || username !in users then s
    else if Throws(fault, OpenCounter) || Throws(fault, StoreCounter) then s
    else s.(counters := s.counters[users[username] := 0])
  }

  /** An unknown username leaves the cache, the accounts and the messages
      alone. */
  lemma UnknownUserFailure(s: Store, limit: nat, users: map<string, UserId>, username: string)
    requires username !in users
    ensures Failure(s, limit, users, username, None) == s
  {
  }

  /** Below the threshold a failure stores the incremented count and
      deactivates nobody. */
  lemma FailureBelowThreshold(s: Store, limit: nat, users: map<string, UserId>, username: string)
    requires username in users
    requires CountOf(s.counters, users[username]) + 1 <= limit
    ensures CountOf(Failure(s, limit, users, username, None).counters, users[username]) ==
              CountOf(s.counters, users[username]) + 1
    ensures Failure(s, limit, users, username, None).deactivated == s.deactivated
    ensures Failure(s, limit, users, username, None).flash == s.flash
  {
  }

  /** Past the threshold a failure deactivates the user, adds the blocking
      message and leaves the count where it was, so every later failure
      blocks again. */
  lemma FailureAboveThreshold(s: Store, limit: nat, users: map<string, UserId>, username: string)
    requires username in users
    requires CountOf(s.counters, users[username]) + 1 > limit
    ensures Failure(s, limit, users, username, None).counters == s.counters
    ensures Failure(s, limit, users, username, None).deactivated == s.deactivated + {users[username]}
    ensures Failure(s, limit, users, username, None).flash == s.flash + [MAX_FAILED_LOGINS_MESSAGE]
    ensures Failure(Failure(s, limit, users, username, None), limit, users, username, None) ==
              Report(Failure(s, limit, users, username, None), MAX_FAILED_LOGINS_MESSAGE)
  {
  }

  /** A success resets the user's count to 0 whatever it was. */
  lemma SuccessResets(s: Store, users: map<string, UserId>, username: string)
    requires username in users
    ensures CountOf(Success(s, users, username, None).counters, users[username]) == 0
  {
  }

  /** The failure advice as written: on an unknown username the wrapped
      action is invoked inside the try block, so an exception it raises is
      caught, shown as a flash message, and the action is invoked again. */
  function FailureAsWritten(s: Store, limit: nat, users: map<string, UserId>, username: string,
                            fault: Option<Fault>, action: ActionResult): (r: (Store, Advice))
    ensures r.0 == if !Throws(fault, LookUpUser) && username !in users && action.Raised? then Report(s, action.message)
                   else Failure(s, limit, users, username, fault)
    ensures r.1.invocations == if !Throws(fault, LookUpUser) && username !in users && action.Raised? then 2 else 1
    ensures r.1.response == action
  {
    if !Throws(fault, LookUpUser) && username !in users then
      match action
      case Returned(_) => (s, Advice(1, action))
      case Raised(m) => (Report(s, m), Advice(2, action))
    else
      (Failure(s, limit, users, username, fault), Advice(1, action))
  }

  /** The success advice as written: the same early return inside the try
      block; the caught exception is ignored and the action invoked again. */
  function SuccessAsWritten(s: Store, users: map<string, UserId>, username: string,
                            fault: Option<Fault>, action: ActionResult): (r: (Store, Advice))
    ensures r.0 == Success(s, users, username, fault)
    ensures r.1.invocations == if !Throws(fault, LookUpUser) && username !in users && action.Raised? then 2 else 1
    ensures r.1.response == action
  {
    if !Throws(fault, LookUpUser) && username !in users then
      (s, Advice(if action.Raised? then 2 else 1, action))
    else
      (Success(s, users, username, fault), Advice(1, action))
  }

  /** The input that shows the double invocation: an unknown username whose
      wrapped action throws. The failure path then also reveals, through the
      extra flash message, that the username is unknown. */
  lemma UnknownUserRaisingActionRunsTwice(s: Store, limit: nat, users: map<string, UserId>,
                                          username: string, message: string)
    requires username !in users
    ensures FailureAsWritten(s, limit, users, username, None, Raised(message)).1.invocations == 2
    ensures FailureAsWritten(s, limit, users, username, None, Raised(message)).0.flash == s.flash + [message]
    ensures SuccessAsWritten(s, users, username, None, Raised(message)).1.invocations == 2
  {
  }

  /** The throttle's state as the advices see it across requests. */
  class FailedLoginThrottle {
    const blockAfterFailedLogins: nat
    /** The user service's lookup from username to the user's identifier. */
    const users: map<string, UserId>
    var counters: map<UserId, int>
    var deactivated: set<UserId>
    var flashMessages: seq<string>

    ghost predicate Valid()
      reads this
    {
      CountsInRange(counters, blockAfterFailedLogins)
    }

    function State(): Store
      reads this
    {
      Store(counters, deactivated, flashMessages)
    }

    constructor (blockAfterFailedLogins: nat, users: map<string, UserId>)
      ensures Valid()
      ensures this.blockAfterFailedLogins == blockAfterFailedLogins && this.users == users
      ensures State() == Store(map[], {}, [])
    {
      this.blockAfterFailedLogins := blockAfterFailedLogins;
      this.users := users;
      counters := map[];
      deactivated := {};
      flashMessages := [];
    }

    /** onAuthenticationFailureWithCheckFailedLogins, with the early return
        for an unknown username taken out of the try block. */
    method OnAuthenticationFailure(username: string, fault: Option<Fault>, action: ActionResult)
      returns (advice: Advice)
      requires Valid()
      modifies this
      ensures Valid()
      ensures State() == Failure(old(State()), blockAfterFailedLogins, users, username, fault)
      ensures advice == Advice(1, action)
    {
      var caught: Option<string> := None;
      if Throws(fault, LookUpUser) {
        caught := Some(fault.value.message);
      } else if username in users {
        var id := users[username];
        if Throws(fault, OpenCounter) {
          caught := Some(fault.value.message);
        } else {
          var failedLoginsCount := CountOf(counters, id);
          failedLoginsCount := failedLoginsCount + 1;
          if failedLoginsCount > blockAfterFailedLogins {
            if Throws(fault, Deactivate) {
              caught := Some(fault.value.message);
            } else {
              deactivated := deactivated + {id};
              caught := Some(MAX_FAILED_LOGINS_MESSAGE);
            }
          } else if Throws(fault, StoreCounter) {
            caught := Some(fault.value.message);
          } else {
            counters := counters[id := failedLoginsCount];
          }
        }
      }
      if caught.Some? {
        flashMessages := flashMessages + [caught.value];
      }
      advice := Advice(1, action);
    }

    /** onAuthenticationSuccessWithCheckFailedLogins, with the early return
        for an unknown username taken out of the try block. */
    method OnAuthenticationSuccess(username: string, fault: Option<Fault>, action: ActionResult)
      returns (advice: Advice)
      requires Valid()
      modifies this
      ensures Valid()
      ensures State() == Success(old(State()), users, username, fault)
      ensures advice == Advice(1, action)
    {
      if !Throws(fault, LookUpUser) && username in users {
        if !Throws(fault, OpenCounter) && !Throws(fault, StoreCounter) {
          counters := counters[users[username] := 0];
        }
      }
      advice := Advice(1, action);
    }
  }
}
