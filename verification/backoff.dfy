/** `update_schedule` (linux-kernel/drivers/xen/balloon.c): the exponential
    backoff of the balloon worker and its retry cap. It reads and writes only
    the global `balloon_stats`. */
module Backoff {
  import opened Common
  import opened BalloonState

  datatype Scheduled = Scheduled(state: BpState, stats: Stats)

  /** The stats after a success or a cancellation: delay and retry count
      back to 1, every other field kept. */
  function Reset(s: Stats): (r: Stats)
    ensures r.scheduleDelay == 1 && r.retryCount == 1
    ensures r.(scheduleDelay := s.scheduleDelay, retryCount := s.retryCount) == s
  {
    s.(scheduleDelay := 1, retryCount := 1)
  }

  /** `update_schedule(state)`. `Wait` and `ECanceled` pass through untouched;
      `Done` resets the backoff; `EAgain` bumps the retry count (an unsigned
      long), cancels and resets once a finite cap is exceeded, and otherwise
      doubles the delay (again an unsigned long) and clips it to the maximum. */
  function UpdateSchedule(state: BpState, s: Stats): (r: Scheduled)
    ensures state in {Wait, ECanceled} ==> r == Scheduled(state, s)
    ensures state == Done ==> r == Scheduled(Done, Reset(s))
    ensures state == EAgain ==> r.state in {EAgain, ECanceled}
    ensures state == EAgain ==>
      (r.state == ECanceled <==> s.maxRetryCount != RetryUnlimited && Wrap64(s.retryCount + 1) > s.maxRetryCount)
    ensures r.state == ECanceled && state != ECanceled ==> r.stats == Reset(s)
    ensures r.state == EAgain ==>
      && r.stats.retryCount == Wrap64(s.retryCount + 1)
      && r.stats.scheduleDelay == Min(Wrap64(2 * s.scheduleDelay), s.maxScheduleDelay)
      && r.stats == s.(scheduleDelay := r.stats.scheduleDelay, retryCount := r.stats.retryCount)
  {
    match state
    case Wait => Scheduled(Wait, s)
    case ECanceled => Scheduled(ECanceled, s)
    case Done => Scheduled(Done, Reset(s))
    case EAgain =>
      var retry := Wrap64(s.retryCount + 1);
      if s.maxRetryCount != RetryUnlimited && retry > s.maxRetryCount then
        Scheduled(ECanceled, Reset(s))
      else
        var delay := Wrap64(2 * s.scheduleDelay);
        var delay' := if delay > s.maxScheduleDelay then s.maxScheduleDelay else delay;
        Scheduled(EAgain, s.(scheduleDelay := delay', retryCount := retry))
  }

  /** The backoff invariant the driver's start-up values establish: a delay
      between 1 and a maximum below 2^63, and a retry count within the cap
      (when there is one) and below 2^64. */
  predicate BackoffInv(s: Stats) {
    && 1 <= s.scheduleDelay <= s.maxScheduleDelay < I64Limit
    && s.retryCount < U64
    && s.maxRetryCount < U64
    && (s.maxRetryCount != RetryUnlimited ==> s.retryCount <= s.maxRetryCount)
  }

  /** Every transition keeps the backoff invariant. */
  lemma UpdateSchedulePreservesInv(state: BpState, s: Stats)
    requires BackoffInv(s)
    ensures BackoffInv(UpdateSchedule(state, s).stats)
  {
  }

  /** Without a retry cap a failure never cancels the operation. */
  lemma UnlimitedNeverCancels(s: Stats)
    requires s.maxRetryCount == RetryUnlimited
    ensures UpdateSchedule(EAgain, s).state == EAgain
  {
  }

  /** `k` failures in a row, starting from `s`; the last outcome is reported. */
  function Failures(s: Stats, k: nat): (r: Scheduled)
    requires k >= 1
    decreases k
  {
    if k == 1 then UpdateSchedule(EAgain, s)
    else
      var prev := Failures(s, k - 1);
      if prev.state == ECanceled then prev else UpdateSchedule(EAgain, prev.stats)
  }

  /** After a success (delay and retry count 1), with a finite cap and a
      maximum delay below 2^63: the first `maxRetryCount - 1` failures each
      ask to retry after a delay of min(2^k, maximum), and the failure that
      makes it `maxRetryCount` in a row cancels the operation and resets the
      backoff. */
  lemma {:induction false} FailuresDoubleThenCancel(s: Stats, k: nat)
    requires s.scheduleDelay == 1 && s.retryCount == 1
    requires 1 <= s.maxRetryCount < U64 - 1 && 1 <= s.maxScheduleDelay < I64Limit
    requires 1 <= k <= s.maxRetryCount
    ensures Failures(s, k).state == ECanceled <==> k == s.maxRetryCount
    ensures k < s.maxRetryCount ==>
      && Failures(s, k).stats.scheduleDelay == Min(Pow2(k), s.maxScheduleDelay)
      && Failures(s, k).stats.retryCount == 1 + k
      && Failures(s, k).stats == s.(scheduleDelay := Min(Pow2(k), s.maxScheduleDelay), retryCount := 1 + k)
    ensures k == s.maxRetryCount ==> Failures(s, k).stats == Reset(s)
    decreases k
  {
    if k > 1 {
      FailuresDoubleThenCancel(s, k - 1);
      var prev := Failures(s, k - 1);
      assert prev.state == EAgain;
      assert Failures(s, k) == UpdateSchedule(EAgain, prev.stats);
      assert Wrap64(prev.stats.retryCount + 1) == 1 + k;
      var m := s.maxScheduleDelay;
      assert 2 * Pow2(k - 1) == Pow2(k);
      assert 2 * Min(Pow2(k - 1), m) < U64;
      assert Min(2 * Min(Pow2(k - 1), m), m) == Min(Pow2(k), m);
    }
  }
}
