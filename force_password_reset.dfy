/** The forced-password-reset gate: two around-advices on backend entry points
    that send a user whose reset flag is set to the password settings page
    instead of running the wrapped controller action. */
module ForcePasswordReset {
  import opened Basics

  /** What the advice does with the request: end it with a `Location` header,
      or let the wrapped action run and hand back `result`. */
  datatype Response<R> = Redirect(location: string) | Proceeded(result: R)

  /** The reset-flag cache: a user is flagged when the entry under their
      identifier is present and truthy. */
  type ResetFlags = map<UserId, bool>

  predicate ResetRequired(flags: ResetFlags, user: UserId) {
    user in flags && flags[user]
  }

  /** The path of the password settings page below `loginUri`; a request
      already on it is exempt from the module gate. */
  function SettingsPath(loginUri: string): string {
    loginUri + "/user/usersettings"
  }

  /** The `Location` both gates send. */
  function RedirectTarget(loginUri: string): (target: string)
    ensures |target| == |SettingsPath(loginUri)| + 1
    ensures target[0] == '/' && target[1..] == SettingsPath(loginUri)
  {
    "/" + SettingsPath(loginUri)
  }

  /** `needle` occurs in `haystack` starting at index `i`. */
  predicate OccursAt(haystack: string, needle: string, i: nat) {
    i + |needle| <= |haystack| && haystack[i..i + |needle|] == needle
  }

  /** Substring containment, as a reference definition. */
  ghost predicate Contains(haystack: string, needle: string) {
    exists i: nat :: OccursAt(haystack, needle, i)
  }

  /** `mb_strpos`: the first index at or after `from` where `needle` occurs,
      or None (PHP's `false`) when there is none. */
  function StrPosFrom(haystack: string, needle: string, from: nat): (r: Option<nat>)
    decreases |haystack| - from
    ensures r.Some? ==> from <= r.value && OccursAt(haystack, needle, r.value)
    ensures r.Some? ==> forall j: nat :: from <= j < r.value ==> !OccursAt(haystack, needle, j)
    ensures r.None? ==> forall j: nat :: from <= j ==> !OccursAt(haystack, needle, j)
  {
    if from + |needle| > |haystack| then None
    else if haystack[from..from + |needle|] == needle then Some(from)
    else StrPosFrom(haystack, needle, from + 1)
  }

  function StrPos(haystack: string, needle: string): (r: Option<nat>)
    ensures r.None? <==> !Contains(haystack, needle)
    ensures r.Some? ==> OccursAt(haystack, needle, r.value)
  {
    StrPosFrom(haystack, needle, 0)
  }

  /** Advice around the content UI's BackendController::indexAction. The
      wrapped action's return value is discarded (the advice returns void). */
  function GuardPrimaryEntry(flags: ResetFlags, user: UserId, loginUri: string): (r: Response<()>)
    ensures r.Redirect? <==> ResetRequired(flags, user)
    ensures r.Redirect? ==> r.location == RedirectTarget(loginUri)
  {
    if ResetRequired(flags, user) then Redirect(RedirectTarget(loginUri))
    else Proceeded(())
  }

  /** Advice around ModuleController::indexAction. `requestUri` is the
      request's URI and `actionResult` what the wrapped action returns when it
      runs; the advice passes it back unchanged. */
  function GuardModuleEntry<R>(flags: ResetFlags, user: UserId, loginUri: string,
                               requestUri: string, actionResult: R): (r: Response<R>)
    ensures r.Redirect? <==> ResetRequired(flags, user) && !Contains(requestUri, SettingsPath(loginUri))
    ensures r.Redirect? ==> r.location == RedirectTarget(loginUri)
    ensures r.Proceeded? ==> r.result == actionResult
  {
    if ResetRequired(flags, user) && StrPos(requestUri, SettingsPath(loginUri)).None? then
      Redirect(RedirectTarget(loginUri))
    else
      Proceeded(actionResult)
  }

  /** Without a reset flag the module gate lets every request through. */
  lemma NoFlagNoRedirect<R>(flags: ResetFlags, user: UserId, loginUri: string,
                            requestUri: string, actionResult: R)
    requires !ResetRequired(flags, user)
    ensures GuardModuleEntry(flags, user, loginUri, requestUri, actionResult) == Proceeded(actionResult)
    ensures GuardPrimaryEntry(flags, user, loginUri) == Proceeded(())
  {
  }

  /** The redirect target contains the exempt path, so the request the
      redirect produces is never redirected again by the module gate. */
  lemma NoRedirectLoop<R>(flags: ResetFlags, user: UserId, loginUri: string, actionResult: R)
    ensures Contains(RedirectTarget(loginUri), SettingsPath(loginUri))
    ensures GuardModuleEntry(flags, user, loginUri, RedirectTarget(loginUri), actionResult) == Proceeded(actionResult)
  {
    assert OccursAt(RedirectTarget(loginUri), SettingsPath(loginUri), 1);
  }

  /** The module gate only ever relaxes the primary gate: whenever it
      redirects, the primary gate redirects the same user to the same place. */
  lemma ModuleGateWithinPrimaryGate<R>(flags: ResetFlags, user: UserId, loginUri: string,
                                       requestUri: string, actionResult: R)
    ensures GuardModuleEntry(flags, user, loginUri, requestUri, actionResult).Redirect? ==>
              GuardPrimaryEntry(flags, user, loginUri).Redirect? &&
              GuardPrimaryEntry(flags, user, loginUri).location ==
                GuardModuleEntry(flags, user, loginUri, requestUri, actionResult).location
    ensures GuardPrimaryEntry(flags, user, loginUri).Redirect? && !Contains(requestUri, SettingsPath(loginUri)) ==>
              GuardModuleEntry(flags, user, loginUri, requestUri, actionResult).Redirect?
  {
  }
}
