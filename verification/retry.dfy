/** The bounded retry loop shared by authLogin, authRefresh and
    registerWebnodes (index.js). Each attempt is one HTTP request whose
    outcome the network decides; the model takes those outcomes as a
    sequence, one per attempt the loop may make. */
module HttpRetry {
  import opened Base

  /** The outcome of one request: the transport failed (axios threw), or the
      server answered with a body. */
  datatype Attempt<+R> = Failed | Succeeded(response: R)

  /** The `retries` default of the three callers. */
  const DefaultRetries: nat := 5

  /** The fixed pause between two attempts, in milliseconds. */
  const RetryDelayMs: nat := 5000

  /** What a call leaves behind: the body it returns (`null` when every
      attempt failed), how many requests it made and how many pauses it took. */
  datatype RetryRun<+R> = RetryRun(response: Option<R>, attempts: nat, sleeps: nat)

  /** The loop from attempt number `attempt` (0-based) on; the counts are those
      of the attempts made from `attempt` on. */
  function RetryFrom<R>(outcomes: seq<Attempt<R>>, retries: nat, attempt: nat): (r: RetryRun<R>)
    requires attempt < retries <= |outcomes|
    ensures 1 <= r.attempts <= retries - attempt
    ensures r.sleeps == r.attempts - 1
    ensures forall i :: attempt <= i < attempt + r.attempts - 1 ==> outcomes[i].Failed?
    ensures r.response.Some? ==> outcomes[attempt + r.attempts - 1] == Succeeded(r.response.value)
    ensures r.response.None? ==> r.attempts == retries - attempt && outcomes[retries - 1].Failed?
    decreases retries - attempt
  {
    match outcomes[attempt]
    case Succeeded(body) => RetryRun(Some(body), 1, 0)
    case Failed =>
      if attempt < retries - 1 then
        var rest := RetryFrom(outcomes, retries, attempt + 1);
        RetryRun(rest.response, rest.attempts + 1, rest.sleeps + 1)
      else
        RetryRun(None, 1, 0)
  }

  /** A call with `retries` attempts at most. It returns the first body among
      the first `retries` outcomes and makes no request after it; it returns
      `null` exactly when all of them failed; it pauses between attempts only,
      so it takes one pause fewer than it makes requests. A bound of 0 or less
      makes no request at all (the loop body never runs and the call returns
      `undefined`). */
  function Retry<R>(outcomes: seq<Attempt<R>>, retries: int): (r: RetryRun<R>)
    requires retries <= |outcomes|
    ensures retries <= 0 ==> r == RetryRun(None, 0, 0)
    ensures retries > 0 ==> 1 <= r.attempts <= retries && r.sleeps == r.attempts - 1
    ensures r.response.Some? <==> exists i :: 0 <= i < retries && outcomes[i].Succeeded?
    ensures r.response.Some? ==>
      && outcomes[r.attempts - 1] == Succeeded(r.response.value)
      && forall i :: 0 <= i < r.attempts - 1 ==> outcomes[i].Failed?
    ensures r.response.None? ==>
      && r.attempts == (if retries > 0 then retries else 0)
      && forall i :: 0 <= i < retries ==> outcomes[i].Failed?
  {
    if retries <= 0 then RetryRun(None, 0, 0)
    else RetryFrom(outcomes, retries, 0)
  }

  /** The total time a call spends pausing, in milliseconds. */
  function PauseMs<R>(r: RetryRun<R>): nat {
    r.sleeps * RetryDelayMs
  }

  /** Once a call has its body it attempts nothing more: outcomes after the
      attempts it made do not change its result. */
  lemma RetryStopsAtFirstSuccess<R>(outcomes: seq<Attempt<R>>, other: seq<Attempt<R>>, retries: int)
    requires retries <= |outcomes| && retries <= |other|
    requires var n := Retry(outcomes, retries).attempts;
      n <= |other| && outcomes[..n] == other[..n]
    ensures Retry(other, retries) == Retry(outcomes, retries)
  {
    var r, r' := Retry(outcomes, retries), Retry(other, retries);
    var n := r.attempts;
    assert forall i :: 0 <= i < n ==> outcomes[i] == other[i] by {
      forall i | 0 <= i < n ensures outcomes[i] == other[i] {
        assert outcomes[..n][i] == other[..n][i];
      }
    }
    if retries > 0 {
      if r.response.Some? {
        assert other[n - 1].Succeeded?;
        assert r'.response.Some?;
      } else {
        assert forall i :: 0 <= i < retries ==> other[i].Failed?;
      }
    }
  }

  /** A call whose first four requests fail and whose fifth succeeds returns
      the fifth body, after five requests and four pauses. */
  lemma RetrySucceedsOnLastAttempt<R>(outcomes: seq<Attempt<R>>, body: R)
    requires |outcomes| >= DefaultRetries
    requires forall i :: 0 <= i < 4 ==> outcomes[i].Failed?
    requires outcomes[4] == Succeeded(body)
    ensures Retry(outcomes, DefaultRetries) == RetryRun(Some(body), 5, 4)
  {
    assert outcomes[4].Succeeded?;
  }

  /** A call whose five requests all fail returns no body after five requests
      and four pauses of 5 seconds. */
  lemma RetryExhausted<R>(outcomes: seq<Attempt<R>>)
    requires |outcomes| >= DefaultRetries
    requires forall i :: 0 <= i < DefaultRetries ==> outcomes[i].Failed?
    ensures Retry(outcomes, DefaultRetries) == RetryRun(None, 5, 4)
    ensures PauseMs(Retry(outcomes, DefaultRetries)) == 20000
  {
  }
}
