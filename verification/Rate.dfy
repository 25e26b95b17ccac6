/** The sleeper that paces the tick thread, `cyber/time/rate.cc`, and what it means for the wall-clock
    time of timers. All times are in nanoseconds. */
module Rate {
  import opened Helpers

  /** The deadline Sleep works towards; a clock that went backwards restarts the cycle from now. */
  function ExpectedEnd(start: int, cycle: nat, now: int): int {
    (if now < start then now else start) + cycle
  }

  /** The deadline Sleep leaves behind: more than a whole cycle late, it starts over from now. */
  function Deadline(start: int, cycle: nat, now: int): int {
    var expected := ExpectedEnd(start, cycle, now);
    if now > expected + cycle then now else expected
  }

  class Rate {
    const expectedCycleTime: nat
    var start: int
    var actualCycleTime: int

    constructor (nanoseconds: nat, now: int)
      ensures start == now && expectedCycleTime == nanoseconds && actualCycleTime == 0
    {
      start, actualCycleTime, expectedCycleTime := now, 0, nanoseconds;
    }

    /** Sleep, up to the call of SleepUntil: the result is the time to sleep to, if it sleeps at all. */
    method Sleep(now: int) returns (until: Option<int>)
      modifies this
      ensures start == Deadline(old(start), expectedCycleTime, now)
      ensures actualCycleTime == now - old(start)
      ensures until == if now <= ExpectedEnd(old(start), expectedCycleTime, now) then Some(start) else None
    {
      var expectedEnd := start + expectedCycleTime;
      var actualEnd := now;
      if actualEnd < start {
        expectedEnd := actualEnd + expectedCycleTime;
      }
      var sleepTime := expectedEnd - actualEnd;
      actualCycleTime := actualEnd - start;
      start := expectedEnd;
      if sleepTime < 0 {
        if actualEnd > expectedEnd + expectedCycleTime {
          start := actualEnd;
        }
        return None;
      }
      until := Some(expectedEnd);
    }
  }

  /** The grid is kept, and what was missed is caught up, as long as the clock is read within two cycles
      after the previous deadline and not before it. Only outside of that the cycle starts over: from the
      reading of a clock that is later, and a cycle after the reading of one that went backwards. */
  lemma GridIsKeptWithinTwoCycles(start: int, cycle: nat, now: int)
    ensures start <= now <= start + 2 * cycle ==> Deadline(start, cycle, now) == start + cycle
    ensures now > start + 2 * cycle ==> Deadline(start, cycle, now) == now
    ensures now < start ==> Deadline(start, cycle, now) == now + cycle
  {
  }

  /** Deadlines are at least a cycle apart exactly when the clock has not gone backwards. */
  lemma DeadlinesApart(start: int, cycle: nat, now: int)
    ensures Deadline(start, cycle, now) >= start + cycle <==> now >= start
  {
  }

  /** The time Sleep samples is never more than one cycle past the deadline it leaves behind. */
  lemma AtMostOneCycleLate(start: int, cycle: nat, now: int)
    ensures now <= Deadline(start, cycle, now) + cycle
  {
  }

  /** One call of Sleep: when it reads the clock, and when it has returned. */
  datatype Call = Call(now: int, wake: int)

  /** The deadline after the first n calls. */
  function DeadlineAfter(origin: int, cycle: nat, calls: seq<Call>, n: nat): int
    requires n <= |calls|
  {
    if n == 0 then origin else Deadline(DeadlineAfter(origin, cycle, calls, n - 1), cycle, calls[n - 1].now)
  }

  /** Call i reads the clock within two cycles after the deadline before it. */
  predicate InReach(origin: int, cycle: nat, calls: seq<Call>, i: nat)
    requires i < |calls|
  {
    var deadline := DeadlineAfter(origin, cycle, calls, i);
    deadline <= calls[i].now <= deadline + 2 * cycle
  }

  /** A loop that is late now and then, but never by more than a cycle, stays on the grid for good. */
  lemma {:induction false} StaysOnTheGrid(origin: int, cycle: nat, calls: seq<Call>, n: nat)
    requires n <= |calls| && forall i :: 0 <= i < n ==> InReach(origin, cycle, calls, i)
    ensures DeadlineAfter(origin, cycle, calls, n) == origin + n * cycle
  {
    if n > 0 {
      StaysOnTheGrid(origin, cycle, calls, n - 1);
      assert InReach(origin, cycle, calls, n - 1);
      GridIsKeptWithinTwoCycles(DeadlineAfter(origin, cycle, calls, n - 1), cycle, calls[n - 1].now);
      OneMoreCycle(n - 1, cycle);
    }
  }

  /** Call i reads a clock that has not gone backwards, and SleepUntil does not return early. */
  ghost predicate CallOk(origin: int, cycle: nat, calls: seq<Call>, i: nat)
    requires i < |calls|
  {
    && (if i == 0 then origin else calls[i - 1].wake) <= calls[i].now <= calls[i].wake
    && ExpectedEnd(DeadlineAfter(origin, cycle, calls, i), cycle, calls[i].now) <= calls[i].wake
  }

  ghost predicate IsTimeline(origin: int, cycle: nat, calls: seq<Call>) {
    forall i :: 0 <= i < |calls| ==> CallOk(origin, cycle, calls, i)
  }

  /** No call returns before its deadline, and no call sees the clock behind the previous deadline. */
  lemma {:induction false} NeverEarly(origin: int, cycle: nat, calls: seq<Call>, n: nat)
    requires IsTimeline(origin, cycle, calls) && n <= |calls|
    ensures n > 0 ==> calls[n - 1].wake >= DeadlineAfter(origin, cycle, calls, n)
    ensures n < |calls| ==> calls[n].now >= DeadlineAfter(origin, cycle, calls, n)
  {
    if n > 0 {
      assert CallOk(origin, cycle, calls, n - 1);
    }
    if n < |calls| {
      assert CallOk(origin, cycle, calls, n);
    }
  }

  lemma OneMoreCycle(n: int, cycle: nat)
    ensures (n + 1) * cycle == n * cycle + cycle
  {
  }

  lemma NextDeadlineSpaced(origin: int, cycle: nat, calls: seq<Call>, n: nat)
    requires IsTimeline(origin, cycle, calls) && n < |calls|
    ensures DeadlineAfter(origin, cycle, calls, n + 1) >= DeadlineAfter(origin, cycle, calls, n) + cycle
  {
    NeverEarly(origin, cycle, calls, n);
    DeadlinesApart(DeadlineAfter(origin, cycle, calls, n), cycle, calls[n].now);
  }

  /** Deadlines of a run that are `gap` calls apart are at least that many cycles apart. */
  lemma {:induction false} DeadlinesSpaced(origin: int, cycle: nat, calls: seq<Call>, m: nat, gap: nat)
    requires IsTimeline(origin, cycle, calls) && m + gap <= |calls|
    ensures DeadlineAfter(origin, cycle, calls, m + gap) >= DeadlineAfter(origin, cycle, calls, m) + gap * cycle
  {
    if gap > 0 {
      DeadlinesSpaced(origin, cycle, calls, m, gap - 1);
      NextDeadlineSpaced(origin, cycle, calls, m + gap - 1);
      OneMoreCycle(gap - 1, cycle);
    }
  }

  lemma SampledInTime(origin: int, cycle: nat, calls: seq<Call>, n: nat)
    requires n < |calls|
    ensures calls[n].now <= DeadlineAfter(origin, cycle, calls, n + 1) + cycle
  {
    AtMostOneCycleLate(DeadlineAfter(origin, cycle, calls, n), cycle, calls[n].now);
  }

  /** The tick thread is at position p once its p-th sleep has returned. A task added at position p for
      k ticks fires at position p + k; in wall-clock time that is at least k - 3 cycles after the add. */
  lemma FiresNotTooEarly(origin: int, cycle: nat, calls: seq<Call>, pos: nat, k: nat, addTime: int, fireTime: int)
    requires IsTimeline(origin, cycle, calls) && k >= 2 && pos + k <= |calls|
    requires addTime <= calls[pos + 1].now
    requires fireTime >= calls[pos + k - 1].wake
    ensures fireTime >= addTime + (k - 3) * cycle
  {
    NeverEarly(origin, cycle, calls, pos + k);
    DeadlinesSpaced(origin, cycle, calls, pos + 2, k - 2);
    SampledInTime(origin, cycle, calls, pos + 1);
    OneMoreCycle(k - 3, cycle);
  }
}
