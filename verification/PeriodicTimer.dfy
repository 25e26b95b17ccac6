/** The timer task of `cyber/timer/timer_task.h` and its periodic callback in `cyber/timer/timer.cc`:
    how the accumulated error steers the next firing. Rounding is exact, on integers. */
module PeriodicTimer {
  import opened TimerTable

  const NS_PER_MS := 1_000_000

  /** llround(ns / 1e6): to the nearest millisecond, halves away from zero. */
  function RoundToMs(ns: int): (ms: int)
    ensures -NS_PER_MS <= 2 * (ns - ms * NS_PER_MS) <= NS_PER_MS
    ensures 2 * (ns - ms * NS_PER_MS) == NS_PER_MS ==> ns < 0
    ensures 2 * (ns - ms * NS_PER_MS) == -NS_PER_MS ==> ns > 0
  {
    if ns >= 0 then (2 * ns + NS_PER_MS) / (2 * NS_PER_MS)
    else -((-2 * ns + NS_PER_MS) / (2 * NS_PER_MS))
  }

  /** The error after callbacks that started at the given times. A last start of 0 means "never ran". */
  function AccumulatedError(starts: seq<nat>, intervalMs: nat): int {
    if |starts| <= 1 then 0
    else
      var n := |starts| - 1;
      AccumulatedError(starts[..n], intervalMs)
      + if starts[n - 1] == 0 then 0 else starts[n] - starts[n - 1] - intervalMs * NS_PER_MS
  }

  /** The interval has room for the time the callback took and for the error to be made up. */
  predicate Compensated(errorNs: int, intervalMs: nat, executeNs: nat) {
    RoundToMs(executeNs) < intervalMs &&
    intervalMs - RoundToMs(executeNs) - TIMER_RESOLUTION_MS >= RoundToMs(errorNs)
  }

  function NextDuration(errorNs: int, intervalMs: nat, executeNs: nat): (ms: nat)
    ensures ms >= TIMER_RESOLUTION_MS && Ticks(ms) >= 1
  {
    if Compensated(errorNs, intervalMs, executeNs)
    then intervalMs - RoundToMs(executeNs) - RoundToMs(errorNs)
    else TIMER_RESOLUTION_MS
  }

  /** A callback that takes the whole interval, or an error that what is left of it cannot make up, has the
      next firing as soon as the wheel can, one tick on; otherwise all of the error is made up. */
  lemma OverrunFiresNextTick(errorNs: int, intervalMs: nat, executeNs: nat)
    ensures var ms, left := NextDuration(errorNs, intervalMs, executeNs), intervalMs - RoundToMs(executeNs);
      && (left <= 0 || left - TIMER_RESOLUTION_MS < RoundToMs(errorNs) ==> ms == TIMER_RESOLUTION_MS && Ticks(ms) == 1)
      && (left > 0 && left - TIMER_RESOLUTION_MS >= RoundToMs(errorNs) ==> ms + RoundToMs(errorNs) == left)
  {
  }

  class TimerTask {
    const timerId: nat
    const intervalMs: nat
    var remainderIntervalMs: nat
    var nextFireDurationMs: nat
    var accumulatedErrorNs: int
    var lastExecuteTimeNs: nat
    ghost var starts: seq<nat>  // when the callback has started so far

    ghost predicate Valid()
      reads this
    {
      && accumulatedErrorNs == AccumulatedError(starts, intervalMs)
      && lastExecuteTimeNs == if starts == [] then 0 else starts[|starts| - 1]
    }

    constructor (timerId: nat, period: nat)
      ensures Valid() && starts == [] && intervalMs == nextFireDurationMs == period && this.timerId == timerId
    {
      this.timerId := timerId;
      intervalMs := period;
      remainderIntervalMs := 0;
      nextFireDurationMs := period;
      accumulatedErrorNs := 0;
      lastExecuteTimeNs := 0;
      starts := [];
    }

    /** The periodic callback around the user's function, which ran from start to end. */
    method Execute(start: nat, end: nat)
      requires Valid() && start <= end
      modifies this`nextFireDurationMs, this`accumulatedErrorNs, this`lastExecuteTimeNs, this`starts
      ensures Valid() && starts == old(starts) + [start]
      ensures nextFireDurationMs == NextDuration(AccumulatedError(starts, intervalMs), intervalMs, end - start)
    {
      var executeTimeNs := end - start;
      var executeTimeMs := RoundToMs(executeTimeNs);
      if lastExecuteTimeNs == 0 {
        lastExecuteTimeNs := start;
      } else {
        accumulatedErrorNs := accumulatedErrorNs + start - lastExecuteTimeNs - intervalMs * NS_PER_MS;
      }
      lastExecuteTimeNs := start;
      if executeTimeMs >= intervalMs {
        nextFireDurationMs := TIMER_RESOLUTION_MS;
      } else {
        var accumulatedErrorMs := RoundToMs(accumulatedErrorNs);
        if intervalMs - executeTimeMs - TIMER_RESOLUTION_MS >= accumulatedErrorMs {
          nextFireDurationMs := intervalMs - executeTimeMs - accumulatedErrorMs;
        } else {
          nextFireDurationMs := TIMER_RESOLUTION_MS;
        }
      }
      starts := starts + [start];
      assert starts[..|starts| - 1] == old(starts);
    }
  }

  /** Timer::InitTimerTask accepts exactly the periods the wheel can hold. */
  predicate PeriodAccepted(period: nat) {
    0 < period < WORK_WHEEL_SIZE * ASSISTANT_WHEEL_SIZE * TIMER_RESOLUTION_MS
  }

  /** The periods accepted are exactly those that would be on time, when first added, even if they were a
      millisecond longer. */
  lemma PeriodAcceptedExactly(period: nat)
    ensures var k := Ticks(period + 1);
      PeriodAccepted(period) <==> period > 0 && forall pos: nat :: DuePosition(pos, Ticked, k) == pos + k
  {
    var k := Ticks(period + 1);
    if PeriodAccepted(period) {
      forall pos: nat ensures DuePosition(pos, Ticked, k) == pos + k {
        OnTimeBetweenWraps(pos, Ticked, k);
      }
    } else if period > 0 {
      OnTimeExactly(WORK_WHEEL_SIZE - 1, Ticked, k);
      assert DuePosition(WORK_WHEEL_SIZE - 1, Ticked, k) != WORK_WHEEL_SIZE - 1 + k;
    }
  }

  /** Every accepted period is on time at every position between wraps, when first added. */
  lemma AcceptedPeriodIsOnTime(period: nat, pos: nat, phase: Phase)
    requires PeriodAccepted(period) && (phase == AtTick || phase == Ticked)
    ensures DuePosition(pos, phase, Ticks(period)) == pos + Ticks(period)
  {
    OnTimeBetweenWraps(pos, phase, Ticks(period));
  }

  /** The durations the callback adds again are not checked. They are on time at every position between
      wraps exactly when the compensated duration fits the wheel. */
  lemma ReaddIsOnTimeExactly(errorNs: int, intervalMs: nat, executeNs: nat)
    ensures var k := Ticks(NextDuration(errorNs, intervalMs, executeNs));
      (forall pos: nat :: DuePosition(pos, AtTick, k) == pos + k && DuePosition(pos, Ticked, k) == pos + k) <==>
      (Compensated(errorNs, intervalMs, executeNs) ==>
         intervalMs - RoundToMs(executeNs) - RoundToMs(errorNs)
         <= WORK_WHEEL_SIZE * ASSISTANT_WHEEL_SIZE * TIMER_RESOLUTION_MS)
  {
    var ms := NextDuration(errorNs, intervalMs, executeNs);
    var k := Ticks(ms);
    if k <= WORK_WHEEL_SIZE * ASSISTANT_WHEEL_SIZE {
      forall pos: nat ensures DuePosition(pos, AtTick, k) == pos + k && DuePosition(pos, Ticked, k) == pos + k {
        OnTimeBetweenWraps(pos, AtTick, k);
        OnTimeBetweenWraps(pos, Ticked, k);
      }
    } else {
      OnTimeExactly(WORK_WHEEL_SIZE - 1, AtTick, k);
      assert DuePosition(WORK_WHEEL_SIZE - 1, AtTick, k) != WORK_WHEEL_SIZE - 1 + k;
    }
  }

  /** An accepted period whose second add, 2 ms longer, wraps both wheels and fires one tick later. */
  lemma LongReaddFiresAtOnce()
    ensures PeriodAccepted(65535)
    ensures DuePosition(511, AtTick, Ticks(NextDuration(-2 * NS_PER_MS, 65535, 0))) == 512
  {
    assert RoundToMs(-2 * NS_PER_MS) == -2 && RoundToMs(0) == 0;
  }

  /** The error telescopes. With a clock that starts at 0, starts at time 0 are not counted. */
  lemma {:induction false} ErrorTelescopes(starts: seq<nat>, intervalMs: nat, first: nat)
    requires first < |starts|
    requires forall i :: 0 <= i < first ==> starts[i] == 0
    requires forall i :: first <= i < |starts| ==> starts[i] > 0
    ensures var n := |starts|;
      AccumulatedError(starts, intervalMs) == starts[n - 1] - starts[first] - (n - 1 - first) * intervalMs * NS_PER_MS
  {
    var n := |starts|;
    if n >= 2 {
      var prefix := starts[..n - 1];
      if first < n - 1 {
        ErrorTelescopes(prefix, intervalMs, first);
      } else {
        NoErrorYet(prefix, intervalMs);
      }
    }
  }

  lemma {:induction false} NoErrorYet(starts: seq<nat>, intervalMs: nat)
    requires forall i :: 0 <= i < |starts| ==> starts[i] == 0
    ensures AccumulatedError(starts, intervalMs) == 0
  {
    if |starts| >= 2 {
      NoErrorYet(starts[..|starts| - 1], intervalMs);
    }
  }

  /** Whenever the compensated branch is taken, the next firing is aimed at the n-th interval after the
      very first start, to within one millisecond, however many callbacks have run. */
  lemma AimsAtTheGrid(starts: seq<nat>, intervalMs: nat, end: nat)
    requires starts != [] && forall i :: 0 <= i < |starts| ==> starts[i] > 0
    requires starts[|starts| - 1] <= end
    requires Compensated(AccumulatedError(starts, intervalMs), intervalMs, end - starts[|starts| - 1])
    ensures var n := |starts|;
      var aim := Aim(starts, intervalMs, end);
      -NS_PER_MS <= aim - (starts[0] + n * intervalMs * NS_PER_MS) <= NS_PER_MS
  {
    ErrorTelescopes(starts, intervalMs, 0);
    var n := |starts|;
    assert n * intervalMs * NS_PER_MS == (n - 1) * intervalMs * NS_PER_MS + intervalMs * NS_PER_MS;
  }

  /** The time at which a callback that ended now asks to be fired next. */
  function Aim(starts: seq<nat>, intervalMs: nat, end: nat): int
    requires starts != [] && starts[|starts| - 1] <= end
  {
    end + NextDuration(AccumulatedError(starts, intervalMs), intervalMs, end - starts[|starts| - 1]) * NS_PER_MS
  }

  /** A whole run of the timer: each callback takes at most `longest`, and the next one starts between
      `early` before and `late` after the time it was aimed at. All in nanoseconds. */
  ghost predicate IsRun(starts: seq<nat>, ends: seq<nat>, intervalMs: nat, longest: nat, early: nat, late: nat) {
    && |starts| == |ends|
    && (starts == [] ||
        var n := |starts| - 1;
        && 0 < starts[n] <= ends[n] <= starts[n] + longest
        && IsRun(starts[..n], ends[..n], intervalMs, longest, early, late)
        && (n > 0 && starts[n - 1] <= ends[n - 1] ==>
              var aim := Aim(starts[..n], intervalMs, ends[n - 1]);
              aim - early <= starts[n] <= aim + late))
  }

  lemma {:induction false} RunStartsPositive(starts: seq<nat>, ends: seq<nat>, intervalMs: nat, longest: nat,
                                             early: nat, late: nat)
    requires IsRun(starts, ends, intervalMs, longest, early, late)
    ensures forall i :: 0 <= i < |starts| ==> starts[i] > 0
  {
    if starts != [] {
      var n := |starts| - 1;
      RunStartsPositive(starts[..n], ends[..n], intervalMs, longest, early, late);
      assert forall i :: 0 <= i < n ==> starts[i] == starts[..n][i];
    }
  }

  /** The timer does not drift: if the callback and the lateness leave 4 ms of the interval, then every
      start, over a run of any length, stays within a fixed distance of its place on the grid that the
      first start set. */
  lemma {:induction false} DoesNotDrift(starts: seq<nat>, ends: seq<nat>, intervalMs: nat, longest: nat,
                                        early: nat, late: nat)
    requires starts != [] && IsRun(starts, ends, intervalMs, longest, early, late)
    requires longest + late + 4 * NS_PER_MS <= intervalMs * NS_PER_MS
    ensures var n := |starts| - 1;
      && -NS_PER_MS - early <= starts[n] - (starts[0] + n * intervalMs * NS_PER_MS) <= late + NS_PER_MS
      && Compensated(AccumulatedError(starts, intervalMs), intervalMs, ends[n] - starts[n])
  {
    var n := |starts| - 1;
    RunStartsPositive(starts, ends, intervalMs, longest, early, late);
    ErrorTelescopes(starts, intervalMs, 0);
    if n > 0 {
      var before, beforeEnds := starts[..n], ends[..n];
      DoesNotDrift(before, beforeEnds, intervalMs, longest, early, late);
      AimsAtTheGrid(before, intervalMs, ends[n - 1]);
    }
    FitsTheInterval(AccumulatedError(starts, intervalMs), intervalMs, ends[n] - starts[n], longest, late);
  }

  lemma FitsTheInterval(errorNs: int, intervalMs: nat, executeNs: nat, longest: nat, late: nat)
    requires errorNs <= late + NS_PER_MS && executeNs <= longest
    requires longest + late + 4 * NS_PER_MS <= intervalMs * NS_PER_MS
    ensures Compensated(errorNs, intervalMs, executeNs)
  {
  }
}
