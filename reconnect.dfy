/** The reconnection policy of `BasicClient`: the back-off schedule and the
    decision taken when the connection drops. */
module Reconnect {
  import opened Wrappers

  /** The four class attributes `RECONNECT_ON_ERROR`, `RECONNECT_MAX_ATTEMPTS`
      (`None` for no limit), `RECONNECT_DELAYED` and `RECONNECT_DELAYS`. */
  datatype Policy = Policy(onError: bool, maxAttempts: Option<nat>, delayed: bool, delays: seq<nat>)

  /** The values `BasicClient` declares. */
  const DefaultPolicy := Policy(true, Some(3), true, [0, 30, 120, 600])

  /** What `on_disconnect` does: nothing for an expected disconnect, reconnect
      after `delay` seconds, or log that it gives up. */
  datatype Decision = Expected | Retry(delay: nat) | GiveUp

  /** Both switches that make `_reconnect_delay` consult the schedule are on. */
  predicate Delaying(p: Policy) {
    p.onError && p.delayed
  }

  /** `_reconnect_delay` does not raise `IndexError`: the schedule is consulted
      only when it is non-empty and the count is not exactly its length. */
  predicate DelayDefined(p: Policy, attempts: nat) {
    !Delaying(p) || (|p.delays| > 0 && attempts != |p.delays|)
  }

  /** `_reconnect_delay`. */
  function ReconnectDelay(p: Policy, attempts: nat): (d: nat)
    requires DelayDefined(p, attempts)
    ensures !Delaying(p) ==> d == 0
    ensures Delaying(p) ==> d in p.delays
    ensures Delaying(p) && attempts < |p.delays| ==> d == p.delays[attempts]
    ensures Delaying(p) && attempts > |p.delays| ==> d == p.delays[|p.delays| - 1]
  {
    if Delaying(p) then
      if attempts > |p.delays| then p.delays[|p.delays| - 1] else p.delays[attempts]
    else 0
  }

  /** The guard of `on_disconnect`: reconnecting is on and the attempt limit,
      if any, is not reached. */
  function MayRetry(p: Policy, attempts: nat): (r: bool)
    ensures !p.onError ==> !r
    ensures p.onError && p.maxAttempts.None? ==> r
    ensures p.onError && p.maxAttempts.Some? ==> (r <==> attempts < p.maxAttempts.value)
  {
    p.onError && (p.maxAttempts.None? || attempts < p.maxAttempts.value)
  }

  /** `on_disconnect(expected)` given the attempt count: the decision and the
      new count. The delay is computed from the count before it is raised. */
  function Decide(p: Policy, attempts: nat, expected: bool): (r: (Decision, nat))
    requires !expected && MayRetry(p, attempts) ==> DelayDefined(p, attempts)
    ensures r.0.Expected? <==> expected
    ensures r.0.Retry? <==> !expected && MayRetry(p, attempts)
    ensures r.0.Retry? ==> r.0.delay == ReconnectDelay(p, attempts) && r.1 == attempts + 1
    ensures !r.0.Retry? ==> r.1 == attempts
  {
    if expected then (Expected, attempts)
    else if MayRetry(p, attempts) then (Retry(ReconnectDelay(p, attempts)), attempts + 1)
    else (GiveUp, attempts)
  }

  /** A policy that either never consults the schedule or has an attempt
      limit that keeps the count from reaching the end of the schedule. */
  predicate Bounded(p: Policy) {
    Delaying(p) ==> p.maxAttempts.Some? && p.maxAttempts.value <= |p.delays|
  }

  /** Under a bounded policy `on_disconnect` never indexes past the schedule. */
  lemma BoundedIsSafe(p: Policy, attempts: nat)
    requires Bounded(p) && MayRetry(p, attempts)
    ensures DelayDefined(p, attempts)
  {
  }

  /** The values `BasicClient` declares form a bounded policy. */
  lemma DefaultIsBounded()
    ensures Bounded(DefaultPolicy)
  {
  }

  /** The decisions taken over `k` unexpected disconnects in a row, with no
      successful connect in between, starting from `attempts`. */
  function Failures(p: Policy, attempts: nat, k: nat): (ds: seq<Decision>)
    requires Bounded(p)
    ensures |ds| == k
    decreases k
  {
    if k == 0 then []
    else
      var (d, next) := Decide(p, attempts, false);
      [d] + Failures(p, next, k - 1)
  }

  /** The i-th of those decisions: a retry with the schedule's delay for count
      `attempts + i` while the limit is not reached, and giving up from then
      on. So a bounded policy retries at most `limit - attempts` times. */
  lemma {:induction false} FailuresAt(p: Policy, attempts: nat, k: nat, i: nat)
    requires Bounded(p) && i < k
    ensures MayRetry(p, attempts + i) ==> DelayDefined(p, attempts + i)
    ensures Failures(p, attempts, k)[i] ==
      if MayRetry(p, attempts + i) then Retry(ReconnectDelay(p, attempts + i)) else GiveUp
    decreases k
  {
    var (d, next) := Decide(p, attempts, false);
    if i > 0 {
      if d.Retry? {
        FailuresAt(p, next, k - 1, i - 1);
      } else {
        FailuresStayGivenUp(p, attempts, k - 1, i - 1);
      }
    }
  }

  /** Once the limit is reached every further disconnect gives up. */
  lemma {:induction false} FailuresStayGivenUp(p: Policy, attempts: nat, k: nat, i: nat)
    requires Bounded(p) && !MayRetry(p, attempts) && i < k
    ensures !MayRetry(p, attempts + i + 1)
    ensures Failures(p, attempts, k)[i] == GiveUp
    decreases k
  {
    if i > 0 {
      FailuresStayGivenUp(p, attempts, k - 1, i - 1);
    }
  }

  /** Under the declared values, four unexpected disconnects in a row reconnect
      after 0, 30 and 120 seconds and then give up. */
  lemma DefaultFailures()
    ensures Failures(DefaultPolicy, 0, 4) == [Retry(0), Retry(30), Retry(120), GiveUp]
  {
    var p := DefaultPolicy;
    FailuresAt(p, 0, 4, 0);
    FailuresAt(p, 0, 4, 1);
    FailuresAt(p, 0, 4, 2);
    FailuresAt(p, 0, 4, 3);
  }

  /** With a limit of 2 and the schedule [0, 30], three failures in a row
      reconnect after 0 and 30 seconds and then give up. */
  lemma TwoAttemptFailures()
    ensures Failures(Policy(true, Some(2), true, [0, 30]), 0, 3) == [Retry(0), Retry(30), GiveUp]
  {
    var p := Policy(true, Some(2), true, [0, 30]);
    FailuresAt(p, 0, 3, 0);
    FailuresAt(p, 0, 3, 1);
    FailuresAt(p, 0, 3, 2);
  }

  /** With a non-decreasing schedule, the delay never shrinks as the count grows. */
  lemma DelayMonotone(p: Policy, a: nat, b: nat)
    requires forall i, j :: 0 <= i <= j < |p.delays| ==> p.delays[i] <= p.delays[j]
    requires a <= b && DelayDefined(p, a) && DelayDefined(p, b)
    ensures ReconnectDelay(p, a) <= ReconnectDelay(p, b)
  {
  }

  /** Without an attempt limit the count does reach the schedule's length: the
      declared schedule with no limit, after four failed reconnects, has a
      count at which `_reconnect_delay` indexes out of range. */
  lemma UnlimitedReachesScheduleEnd()
    ensures var p := DefaultPolicy.(maxAttempts := None);
      MayRetry(p, 4) && !DelayDefined(p, 4) &&
      Decide(p, 0, false).1 == 1 && Decide(p, 1, false).1 == 2 &&
      Decide(p, 2, false).1 == 3 && Decide(p, 3, false).1 == 4
  {
  }
}
