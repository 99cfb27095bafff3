/**
 The two timers the trackers use, on a logical clock counted in milliseconds. The timer
 threads themselves are not modelled: a tracker's `AdvanceClock` lets time pass and runs
 the callback the timer would have raised meanwhile.
 */
module Timers {

  /** One hour in milliseconds, the clearing interval of every version by default. */
  const Hour: nat := 3_600_000

  /**
   A `System.Timers.Timer` with its default `AutoReset`: stopped, or running with the
   time of its next `Elapsed` event.
   */
  datatype ElapsedTimer = Stopped | Running(due: int)

  /**
   `Start()`: a stopped timer is due one interval after `now`; on a running timer it
   changes nothing (it only sets `Enabled`, which is already true).
   */
  function Start(t: ElapsedTimer, now: int, interval: nat): (r: ElapsedTimer)
    ensures r.Running?
    ensures t.Running? ==> r == t
    ensures t.Stopped? ==> r.due == now + interval
    ensures interval > 0 && Armed(t, now, interval) ==> Armed(r, now, interval)
  {
    if t.Running? then t else Running(now + interval)
  }

  /** `Stop()`: no `Elapsed` event until the next `Start()`. */
  function Stop(t: ElapsedTimer): (r: ElapsedTimer)
    ensures forall upTo :: !Elapses(r, upTo)
  {
    Stopped
  }

  /** A running timer is due after `now` and at most one interval after it. */
  predicate Armed(t: ElapsedTimer, now: int, interval: nat) {
    t.Running? ==> now < t.due <= now + interval
  }

  /** The timer raises `Elapsed` at least once before or at time `upTo`. */
  predicate Elapses(t: ElapsedTimer, upTo: int) {
    t.Running? && t.due <= upTo
  }

  /**
   The timer once the clock has reached `upTo`. An elapsed timer keeps running (it
   resets itself) and is next due a whole number of intervals after its old due time.
   */
  function Advance(t: ElapsedTimer, upTo: int, interval: nat): (r: ElapsedTimer)
    requires interval > 0
    ensures r.Running? == t.Running?
    ensures !Elapses(t, upTo) ==> r == t
    ensures Elapses(t, upTo) ==> upTo < r.due <= upTo + interval
  {
    match t
    case Stopped => Stopped
    case Running(due) =>
      if due <= upTo then
        var periods := (upTo - due) / interval + 1;
        NextCadencePoint(upTo - due, interval);
        Running(due + periods * interval)
      else t
  }

  /** The first multiple of `interval` beyond `elapsed` is at most one interval beyond it. */
  lemma NextCadencePoint(elapsed: nat, interval: nat)
    requires interval > 0
    ensures elapsed < (elapsed / interval + 1) * interval <= elapsed + interval
  {
    var q, m := elapsed / interval, elapsed % interval;
    assert elapsed == q * interval + m;
    assert (q + 1) * interval == q * interval + interval;
  }

  /** Passing time up to `upTo` keeps a timer armed relative to the new time. */
  lemma AdvanceKeepsArmed(t: ElapsedTimer, now: int, upTo: int, interval: nat)
    requires interval > 0 && now <= upTo && Armed(t, now, interval)
    ensures Armed(Advance(t, upTo, interval), upTo, interval)
  {
  }

  /** `Stop()` then `Start()`: the timer is due one interval from now, whatever it was. */
  function Restart(t: ElapsedTimer, now: int, interval: nat): (r: ElapsedTimer)
    ensures r == Running(now + interval)
  {
    Start(Stop(t), now, interval)
  }

  /**
   Debounce: a timer restarted at `now` elapses exactly when a whole interval has passed
   since `now`, whatever happened before the restart; `Start()` alone would leave a
   running timer due at its old time.
   */
  lemma RestartElapsesAfterInterval(t: ElapsedTimer, now: int, interval: nat, upTo: int)
    ensures Elapses(Restart(t, now, interval), upTo) <==> upTo >= now + interval
    ensures t.Running? ==> Start(t, now, interval) == t
  {
  }

  /**
   A `System.Threading.Timer` created at time 0 with due time and period `period`
   runs its callback at every positive multiple of `period`. This says whether it runs it
   at least once in the time after `from` and up to `to`.
   */
  predicate PeriodElapses(from: nat, to: nat, period: nat)
    requires period > 0
  {
    to / period > from / period
  }

  /** The time of the `k`-th callback of a fixed-period timer. */
  function CallbackTime(k: nat, period: nat): nat {
    k * period
  }

  /** `PeriodElapses` holds exactly when some callback time falls in `(from, to]`. */
  lemma PeriodElapsesAtCallbackTimes(from: nat, to: nat, period: nat)
    requires period > 0 && from <= to
    ensures PeriodElapses(from, to, period) <==> exists k: nat :: 1 <= k && from < CallbackTime(k, period) <= to
  {
    var qf, qt := from / period, to / period;
    assert from == qf * period + from % period;
    assert to == qt * period + to % period;
    if PeriodElapses(from, to, period) {
      assert (qf + 1) * period == qf * period + period;
      assert qf + 1 <= qt;
      MultiplyMonotone(qf + 1, qt, period);
      assert from < CallbackTime(qt, period) <= to;
    } else {
      forall k: nat | 1 <= k && from < CallbackTime(k, period)
        ensures CallbackTime(k, period) > to
      {
        if k <= qf {
          MultiplyMonotone(k, qf, period);
        } else {
          assert qt <= qf;
          MultiplyMonotone(qt + 1, k, period);
          assert (qt + 1) * period == qt * period + period;
        }
      }
    }
  }

  lemma MultiplyMonotone(a: nat, b: nat, n: nat)
    requires a <= b
    ensures a * n <= b * n
  {
  }
}
