# NeosHardening policies in Dafny

A model of the two around-advices of the JvMTECH.NeosHardening package for the
Neos CMS, with proofs about them.

- **Forced password reset** (`ForcePasswordReset`, pure functions). A backend
  user whose reset flag is set in the `ForcePasswordReset` cache is redirected
  to `/{loginUri}/user/usersettings` instead of reaching the content UI
  (`GuardPrimaryEntry`). The same applies to backend modules
  (`GuardModuleEntry`), except when the request URI already contains
  `{loginUri}/user/usersettings`. `mb_strpos` is modelled as `StrPos`, and
  `Contains` is its reference definition. The gates are functions of the flag
  cache, so they cannot write it or any other store.
- **Failed-login throttle** (`LoginThrottle`). The effect of each advice on
  the state is a function (`Failure`, `Success`) over a `Store`. A `Store`
  holds the failed-logins cache, the set of deactivated accounts and the
  flash messages. The class `FailedLoginThrottle` holds that state in mutable
  fields. Its methods `OnAuthenticationFailure` and `OnAuthenticationSuccess`
  update it step by step, as the advices do, and are proved against the
  functions. One step differs: the early `proceed` for an unknown username
  is moved out of the `try` block (see "## Findings").
  - Collaborator exceptions are a `Fault` parameter. It names which call
    throws (user lookup, identifier/cache/read, deactivation, cache write)
    and with which message.
  - The wrapped controller action is an `ActionResult` parameter. The advice
    reports how often it invoked the action and what it returned.
- **Runs of attempts** (`LoginThrottleRuns`). These are sequences of failed
  and successful logins. The proofs cover the counter invariant, the streak
  that a stored count tracks, and exactly when an account ends up
  deactivated.

## Notes on the code's behaviour

- On the blocking failure, the count is not written back. It stays at the
  threshold; it does not become threshold + 1.
- The redirect target has a leading `/`.
- The module gate's exemption is a substring test on the whole request URI,
  not a comparison of paths.

## Model

| member | source | states |
|---|---|---|
| ForcePasswordReset.RedirectTarget | Classes/Service/ForcePasswordResetAspect.php:41 | the `Location` is `/` followed by the settings path `loginUri + "/user/usersettings"` |
| ForcePasswordReset.StrPosFrom | Classes/Service/ForcePasswordResetAspect.php:61 | `mb_strpos` from an offset: a found index is an occurrence with no earlier one at or after the offset; `None` means no occurrence at or after the offset |
| ForcePasswordReset.StrPos | Classes/Service/ForcePasswordResetAspect.php:61 | `mb_strpos(...) === false` exactly when the needle is not a substring of the URI |
| ForcePasswordReset.GuardPrimaryEntry | Classes/Service/ForcePasswordResetAspect.php:34-46 | redirects iff the user's reset flag is truthy, always to the redirect target; otherwise proceeds and discards the action's result |
| ForcePasswordReset.GuardModuleEntry | Classes/Service/ForcePasswordResetAspect.php:55-67 | redirects iff the flag is truthy and the request URI does not contain the settings path; the target is the redirect target; otherwise returns the wrapped action's result unchanged |
| ForcePasswordReset.NoFlagNoRedirect | Classes/Service/ForcePasswordResetAspect.php:40-45 | without a flag, both gates proceed for every request URI |
| ForcePasswordReset.NoRedirectLoop | Classes/Service/ForcePasswordResetAspect.php:61-62 | the redirect target contains the exempt path, so a request to it is never redirected by the module gate, whatever the flag says |
| ForcePasswordReset.ModuleGateWithinPrimaryGate | Classes/Service/ForcePasswordResetAspect.php:40-41 | the module gate redirects only where the primary gate does, to the same place; both agree whenever the URI lacks the settings path |
| LoginThrottle.Failure | Classes/Service/LoginControllerAspect.php:41-70 | failure advice: an unknown username changes no count or account; otherwise only the acting user's count and activation change; accounts are never reactivated; counts in 0..limit stay in 0..limit; at most one flash message is appended |
| LoginThrottle.Success | Classes/Service/LoginControllerAspect.php:85-99 | success advice: no account or message changes (exceptions swallowed); an unknown username changes nothing; only the acting user's entry changes, and a changed count is 0 |
| LoginThrottle.UnknownUserFailure | Classes/Service/LoginControllerAspect.php:44-47 | a failure with an unknown username reads and writes nothing and adds no message |
| LoginThrottle.FailureBelowThreshold | Classes/Service/LoginControllerAspect.php:53-61 | when count + 1 <= limit, the count becomes count + 1 (absent = 0), no account is deactivated and no message is added |
| LoginThrottle.FailureAboveThreshold | Classes/Service/LoginControllerAspect.php:56-69 | when count + 1 > limit, the user is deactivated, the maximum-failed-logins message is appended, the counters are untouched, and the next failure blocks again |
| LoginThrottle.SuccessResets | Classes/Service/LoginControllerAspect.php:93-96 | a success for a known user sets their count to 0 whatever it was |
| LoginThrottle.FailureAsWritten | Classes/Service/LoginControllerAspect.php:44-72 | the failure advice as written invokes the wrapped action twice exactly when the username is unknown and the action throws; its state is then the old one plus the action's message as a flash message, and `Failure` of the old state on every other input |
| LoginThrottle.SuccessAsWritten | Classes/Service/LoginControllerAspect.php:88-101 | the success advice as written has the success state change, invokes the action twice exactly when the username is unknown and the action throws, and returns (or lets escape) the action's outcome |
| LoginThrottle.UnknownUserRaisingActionRunsTwice | Classes/Service/LoginControllerAspect.php:46 | counterexample: unknown username plus a throwing action gives two invocations, and on the failure path an extra flash message |
| LoginThrottle.FailedLoginThrottle.constructor | Classes/Service/LoginControllerAspect.php:51 | starts from an empty counter cache, no deactivations, no messages, with the invariant established |
| LoginThrottle.FailedLoginThrottle.OnAuthenticationFailure | Classes/Service/LoginControllerAspect.php:39-73 | the new state is `Failure` of the old one; the counter invariant is kept; the wrapped action is invoked exactly once and its result returned |
| LoginThrottle.FailedLoginThrottle.OnAuthenticationSuccess | Classes/Service/LoginControllerAspect.php:83-102 | the new state is `Success` of the old one; the counter invariant is kept; the wrapped action is invoked exactly once and its result returned |
| LoginThrottleRuns.RunTracksStreak | Classes/Service/LoginControllerAspect.php:53-61 | from a zero count, a user's stored count is their current failure streak capped at the limit; they end deactivated iff they already were or some streak with no success in between exceeded the limit |
| LoginThrottleRuns.ConsecutiveFailures | Classes/Service/LoginControllerAspect.php:53-61 | k consecutive failures from a zero count leave the count at min(k, limit); the account is deactivated iff k > limit, so failure limit + 1 is the first that blocks |
| LoginThrottleRuns.RunKeepsCountsInRange | Classes/Service/LoginControllerAspect.php:96 | every run of attempts keeps every stored count in 0..limit |

## Left out

- The submitted username (`$_POST`, LoginControllerAspect.php:42, :86) and the request URI (`$_SERVER['REQUEST_URI']`) are explicit parameters.
- `header(...)` and `exit()` are the returned `Redirect(location)` value; no HTTP is modelled.
- The Flow AOP wiring is not modelled: the pointcuts, the `setting(...)` toggles that switch an advice off, the join point, the advice chain and the proxy. A disabled advice is simply not applied.
- `UserService`, `PersistenceManagerInterface` and `CacheManager` are maps. The user lookup is username to identifier. The caches are identifier to count and identifier to flag. Deactivation is a set.
- `deactivateUser` either completes or throws before it changes anything.
- The gates assume a current backend user exists. A null user and collaborator exceptions in the gates propagate to the framework and are not modelled.
- Flash messages keep only their text. The title, severity, arguments and exception code are not modelled.
- `(int)` casts of non-integer cache contents, PHP truthiness of non-boolean flags and multibyte details of `mb_strpos` are not modelled. Strings are sequences of characters.
- `blockAfterFailedLogins` is a natural number. The configuration promises a positive integer.
- Only `\Exception` is caught by the two catch blocks (LoginControllerAspect.php:62, :97); a PHP `\Error` escapes both, and the model treats every throw as an `\Exception`.
- The wrapped action's two invocations on the as-written unknown-user path are assumed to have the same outcome.
- Concurrent requests are not modelled. The counter's read-modify-write race needs interleavings, which a sequential model does not have.
- LoginThrottleRuns.RunTracksStreak: attempts carry no collaborator exceptions. A swallowed exception on the success path leaves the count un-reset, and the single-request functions cover those cases.
- LoginThrottleRuns.ConsecutiveFailures: same restriction to attempts without collaborator exceptions.

## Findings

| source | as written | input that shows it | evidently intended | confidence | as-written member | corrected member |
|---|---|---|---|---|---|---|
| Classes/Service/LoginControllerAspect.php:45-46 | the early `proceed` for an unknown username is inside the `try`, so the wrapped action's exception is caught, shown as a flash message, and line 72 invokes the action again | an unknown username, with a wrapped action that throws an `\Exception` | the wrapped action is invoked once and an unknown username leaves no trace | medium, not executed | LoginThrottle.FailureAsWritten | LoginThrottle.FailedLoginThrottle.OnAuthenticationFailure |
| Classes/Service/LoginControllerAspect.php:89-90 | same early `proceed` inside the `try`; the exception is ignored and line 101 invokes the action again | an unknown username, with a wrapped action that throws an `\Exception` | the wrapped action is invoked once | medium, not executed | LoginThrottle.SuccessAsWritten | LoginThrottle.FailedLoginThrottle.OnAuthenticationSuccess |
