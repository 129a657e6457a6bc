/** The per-account token session of the bot (index.js): the
    (access, refresh, expires) triple that login and refresh responses
    replace, and the delay the refresh loop sleeps before each refresh. */
module Session {
  import opened Base
  import opened HttpRetry

  /** The triple kept in `access_tokens`, `refresh_tokens` and `expires_times`
      for one account; `expiresAt` is in epoch seconds. */
  datatype Tokens = Tokens(access: string, refresh: string, expiresAt: int)

  /** The body of a login or refresh response: a status code, a message, and
      the new triple under `data`. */
  datatype AuthResponse = AuthResponse(code: int, msg: string, data: Tokens)

  /** The call returned a body and that body reports success (`code === 0`). */
  predicate Accepted(resp: Option<AuthResponse>) {
    resp.Some? && resp.value.code == 0
  }

  /** The token update of processAuthLogin and processAuthRefresh: an accepted
      response replaces the whole triple at once; a missing body or a non-zero
      code leaves the triple as it was. */
  function ApplyAuth(current: Option<Tokens>, resp: Option<AuthResponse>): (next: Option<Tokens>)
    ensures next == current || (resp.Some? && next == Some(resp.value.data))
    ensures next != current ==> Accepted(resp)
    ensures Accepted(resp) ==> next == Some(resp.value.data)
  {
    if Accepted(resp) then Some(resp.value.data) else current
  }

  /** Applying the same response twice is applying it once, and a rejected
      response is the identity on every state. */
  lemma ApplyAuthIdempotent(current: Option<Tokens>, resp: Option<AuthResponse>)
    ensures ApplyAuth(ApplyAuth(current, resp), resp) == ApplyAuth(current, resp)
    ensures !Accepted(resp) ==> forall s :: ApplyAuth(s, resp) == s
  {
  }

  /** processAuthLogin after its reachability probe: one retried login call
      (authLogin, 5 attempts), then the token update. It reports success
      exactly when the update took place. */
  function ProcessAuthLogin(current: Option<Tokens>, attempts: seq<Attempt<AuthResponse>>): (r: (bool, Option<Tokens>))
    requires |attempts| >= DefaultRetries
    ensures r.0 <==> Accepted(Retry(attempts, DefaultRetries).response)
    ensures r.0 ==> exists i :: 0 <= i < DefaultRetries && attempts[i].Succeeded? && r.1 == Some(attempts[i].response.data)
    ensures r.0 ==> r.1 == Some(Retry(attempts, DefaultRetries).response.value.data)
    ensures !r.0 ==> r.1 == current
  {
    var resp := Retry(attempts, DefaultRetries).response;
    (Accepted(resp), ApplyAuth(current, resp))
  }

  /** Login is decided by the first answered request alone: its body's code
      says whether login succeeds, its triple is the one stored, and later
      outcomes play no part (a rejected first answer is not retried). */
  lemma LoginUsesFirstAnswer(current: Option<Tokens>, attempts: seq<Attempt<AuthResponse>>, i: nat)
    requires |attempts| >= DefaultRetries && i < DefaultRetries
    requires attempts[i].Succeeded? && forall j :: 0 <= j < i ==> attempts[j].Failed?
    ensures var body := attempts[i].response;
      ProcessAuthLogin(current, attempts) == (body.code == 0, if body.code == 0 then Some(body.data) else current)
  {
    assert Retry(attempts, DefaultRetries).response.Some?;
  }

  /** When every request fails, login fails and the triple stays as it was. */
  lemma LoginUnreachable(current: Option<Tokens>, attempts: seq<Attempt<AuthResponse>>)
    requires |attempts| >= DefaultRetries
    requires forall j :: 0 <= j < DefaultRetries ==> attempts[j].Failed?
    ensures ProcessAuthLogin(current, attempts) == (false, current)
  {
    RetryExhausted(attempts);
  }

  // ---------------------------------------------------------------------------
  // The refresh loop (processAuthRefresh)
  // ---------------------------------------------------------------------------

  /** How long before expiry the loop wakes up, in seconds. */
  const RefreshMarginSec: int := 300

  /** The sleep when the wake-up instant has already passed, in milliseconds. */
  const FallbackDelayMs: int := 5000

  /** The delay before the next refresh: `refreshAt` is the expiry minus
      (now in whole seconds + 300); a positive `refreshAt` is slept in full,
      in milliseconds, otherwise the loop waits 5 seconds. `nowMs` is
      `Date.now()`; `Math.floor(nowMs / 1000)` is Dafny's `/` since the
      divisor is positive. */
  function RefreshDelayMs(expiresAt: int, nowMs: int): (d: int)
    ensures d > 0
  {
    var refreshAt := expiresAt - (nowMs / 1000 + RefreshMarginSec);
    if refreshAt > 0 then refreshAt * 1000 else FallbackDelayMs
  }

  /** The largest delay Node's `setTimeout` honours, in milliseconds
      (2^31 - 1). */
  const MaxTimerMs: int := 0x7FFF_FFFF

  /** The delay after which Node's `setTimeout` actually runs its callback: a
      requested delay above `MaxTimerMs` (or below 1) is replaced by 1 ms. */
  function TimerDelayMs(requested: int): (d: int)
    ensures 1 <= d <= MaxTimerMs
    ensures 1 <= requested <= MaxTimerMs ==> d == requested
    ensures requested < 1 || requested > MaxTimerMs ==> d == 1
  {
    if requested < 1 || requested > MaxTimerMs then 1 else requested
  }

  /** When the wake-up instant (expiry minus 300 seconds) lies ahead and is
      within the timer's range, the loop wakes no earlier than that instant
      and less than one second after it; when it lies further ahead than the
      timer's range, the loop wakes after 1 ms; otherwise it wakes 5 seconds
      from now. */
  lemma RefreshWakesBeforeExpiry(expiresAt: int, nowMs: int)
    ensures var wake := nowMs + TimerDelayMs(RefreshDelayMs(expiresAt, nowMs));
      var due := (expiresAt - RefreshMarginSec) * 1000;
      && (expiresAt - RefreshMarginSec > nowMs / 1000 && RefreshDelayMs(expiresAt, nowMs) <= MaxTimerMs ==>
            due <= wake < due + 1000)
      && (expiresAt - RefreshMarginSec > nowMs / 1000 && RefreshDelayMs(expiresAt, nowMs) > MaxTimerMs ==>
            wake == nowMs + 1)
      && (expiresAt - RefreshMarginSec <= nowMs / 1000 ==> wake == nowMs + FallbackDelayMs)
  {
    var sec := nowMs / 1000;
    assert sec * 1000 <= nowMs < sec * 1000 + 1000;
  }

  /** The delay is not clamped to 5 seconds: a wake-up instant one second
      ahead gives a 1000 ms sleep. */
  lemma RefreshDelayNotClamped(nowSec: int, subMs: int)
    requires 0 <= subMs < 1000
    ensures RefreshDelayMs(nowSec + RefreshMarginSec + 1, nowSec * 1000 + subMs) == 1000
  {
    assert (nowSec * 1000 + subMs) / 1000 == nowSec;
  }

  /** A token valid for ten more minutes is refreshed after five. */
  lemma RefreshAfterFiveMinutes(nowSec: int)
    ensures RefreshDelayMs(nowSec + 600, nowSec * 1000) == 300000
  {
    assert (nowSec * 1000) / 1000 == nowSec;
  }

  /** One pass of the refresh loop: sleep, send the current refresh token
      (authRefresh, 5 attempts), and apply the response. */
  datatype RefreshRound = RefreshRound(delayMs: int, sentRefreshToken: string, next: Tokens)

  function RefreshStep(tokens: Tokens, nowMs: int, attempts: seq<Attempt<AuthResponse>>): (r: RefreshRound)
    requires |attempts| >= DefaultRetries
    ensures r.delayMs == TimerDelayMs(RefreshDelayMs(tokens.expiresAt, nowMs))
    ensures r.sentRefreshToken == tokens.refresh
    ensures Accepted(Retry(attempts, DefaultRetries).response) ==> r.next == Retry(attempts, DefaultRetries).response.value.data
    ensures !Accepted(Retry(attempts, DefaultRetries).response) ==> r.next == tokens
  {
    var resp := Retry(attempts, DefaultRetries).response;
    RefreshRound(TimerDelayMs(RefreshDelayMs(tokens.expiresAt, nowMs)), tokens.refresh, ApplyAuth(Some(tokens), resp).value)
  }

  /** After a failed refresh the loop keeps the stale expiry, so once the
      wake-up instant has passed it retries every 5 seconds. */
  lemma FailedRefreshRetriesQuickly(tokens: Tokens, nowMs: int, attempts: seq<Attempt<AuthResponse>>, laterMs: int)
    requires |attempts| >= DefaultRetries
    requires !Accepted(Retry(attempts, DefaultRetries).response)
    requires laterMs / 1000 >= tokens.expiresAt - RefreshMarginSec
    ensures RefreshDelayMs(RefreshStep(tokens, nowMs, attempts).next.expiresAt, laterMs) == FallbackDelayMs
  {
  }

  /** Every pass sleeps 1 ms when the wake-up instant lies further ahead
      than the timer's range: with such a token the loop refreshes at once. */
  lemma LongTokenRefreshedAtOnce(tokens: Tokens, nowMs: int, attempts: seq<Attempt<AuthResponse>>)
    requires |attempts| >= DefaultRetries
    requires (tokens.expiresAt - (nowMs / 1000 + RefreshMarginSec)) * 1000 > MaxTimerMs
    ensures RefreshStep(tokens, nowMs, attempts).delayMs == 1
  {
  }

  /** A token valid for 30 more days is refreshed 1 ms after the loop
      starts, not 5 minutes before it expires. */
  lemma ThirtyDayTokenRefreshedAtOnce(nowSec: int, attempts: seq<Attempt<AuthResponse>>)
    requires |attempts| >= DefaultRetries
    ensures var tokens := Tokens("access", "refresh", nowSec + 30 * 86400);
      RefreshStep(tokens, nowSec * 1000, attempts).delayMs == 1
  {
    assert (nowSec * 1000) / 1000 == nowSec;
    LongTokenRefreshedAtOnce(Tokens("access", "refresh", nowSec + 30 * 86400), nowSec * 1000, attempts);
  }

  /** What the refresh loop does on waking when the timer cannot span the
      whole wait: sleep at most `MaxTimerMs`, and refresh only if the wait was
      not cut short. */
  datatype Wake = Wake(sleepMs: int, refresh: bool)

  /** The wake-up that keeps within the timer's range: a wait longer than
      the range is split, the first part ending without a refresh. */
  function CappedWake(expiresAt: int, nowMs: int): (w: Wake)
    ensures TimerDelayMs(w.sleepMs) == w.sleepMs
    ensures w.sleepMs >= 1000
    ensures RefreshDelayMs(expiresAt, nowMs) <= MaxTimerMs ==>
      w == Wake(TimerDelayMs(RefreshDelayMs(expiresAt, nowMs)), true)
    ensures !w.refresh <==> RefreshDelayMs(expiresAt, nowMs) > MaxTimerMs
  {
    var d := RefreshDelayMs(expiresAt, nowMs);
    if d > MaxTimerMs then Wake(MaxTimerMs, false) else Wake(d, true)
  }

  /** With the capped wake-up a refresh never comes early: while the wake-up
      instant lies ahead the loop refreshes no earlier than it and less than a
      second after it, and a wait it cuts short ends, without a refresh, no
      later than the second of that instant. */
  lemma CappedWakeNeverEarly(expiresAt: int, nowMs: int)
    ensures var w := CappedWake(expiresAt, nowMs);
      var due := (expiresAt - RefreshMarginSec) * 1000;
      && (w.refresh && expiresAt - RefreshMarginSec > nowMs / 1000 ==> due <= nowMs + w.sleepMs < due + 1000)
      && (!w.refresh ==> (nowMs + w.sleepMs) / 1000 <= expiresAt - RefreshMarginSec)
  {
    var sec := nowMs / 1000;
    assert sec * 1000 <= nowMs < sec * 1000 + 1000;
  }
}
