/** Timers in wall-clock time: the turns of the timing wheel, the sleeps of its tick thread and the
    periodic callback put together. All times are in nanoseconds. */
module WallClock {
  import opened PeriodicTimer
  import opened Rate
  import opened TimerTable

  const CYCLE_NS := TIMER_RESOLUTION_MS * NS_PER_MS

  /** The tick thread at position p ticks before its p-th sleep reads the clock, counting from 0, and
      advances after that sleep has returned. */
  predicate TurnClocked<Task>(tab: Table<Task>, time: int, calls: seq<Call>) {
    match tab.phase
    case AtTick => tab.pos < |calls| ==> time <= calls[tab.pos].now
    case Ticked => tab.pos < |calls| && calls[tab.pos].wake <= time
    case _ => true
  }

  /** A run of turns with the times at which they happen, in order. */
  ghost predicate Clocked<Task>(tab: Table<Task>, turns: seq<Turn<Task>>, times: seq<int>, calls: seq<Call>)
    decreases |turns|
  {
    && LegalRun(tab, turns) && |times| == |turns|
    && (turns != [] ==>
        && (turns[0].Loop? ==> TurnClocked(tab, times[0], calls))
        && (|turns| > 1 ==> times[0] <= times[1])
        && Clocked(Step(tab, turns[0]), turns[1..], times[1..], calls))
  }

  /** The table before turn i. */
  ghost function TableAt<Task>(tab: Table<Task>, turns: seq<Turn<Task>>, i: nat): Table<Task>
    requires LegalRun(tab, turns) && i <= |turns|
    decreases i
  {
    if i == 0 then tab else TableAt(Step(tab, turns[0]), turns[1..], i - 1)
  }

  lemma {:induction false} TimesGrow<Task>(tab: Table<Task>, turns: seq<Turn<Task>>, times: seq<int>, calls: seq<Call>,
                                           i: nat)
    requires Clocked(tab, turns, times, calls) && i < |turns|
    ensures times[0] <= times[i]
    decreases i
  {
    if i > 0 {
      TimesGrow(Step(tab, turns[0]), turns[1..], times[1..], calls, i - 1);
    }
  }

  /** A run from turn i on is a run. */
  lemma {:induction false} ClockedFrom<Task>(tab: Table<Task>, turns: seq<Turn<Task>>, times: seq<int>,
                                             calls: seq<Call>, i: nat)
    requires Clocked(tab, turns, times, calls) && i <= |turns|
    ensures Clocked(TableAt(tab, turns, i), turns[i..], times[i..], calls)
    decreases i
  {
    if i == 0 {
      assert turns[0..] == turns && times[0..] == times;
    } else {
      ClockedFrom(Step(tab, turns[0]), turns[1..], times[1..], calls, i - 1);
      assert turns[1..][i - 1..] == turns[i..] && times[1..][i - 1..] == times[i..];
    }
  }

  lemma {:induction false} TableFrom<Task>(tab: Table<Task>, turns: seq<Turn<Task>>, i: nat, j: nat)
    requires LegalRun(tab, turns) && i <= j <= |turns|
    ensures LegalRun(TableAt(tab, turns, i), turns[i..])
    ensures TableAt(tab, turns, j) == TableAt(TableAt(tab, turns, i), turns[i..], j - i)
    decreases i
  {
    if i == 0 {
      assert turns[0..] == turns;
    } else {
      var tab', rest := Step(tab, turns[0]), turns[1..];
      TableFrom(tab', rest, i - 1, j - 1);
      assert rest[i - 1..] == turns[i..];
      assert TableAt(tab, turns, i) == TableAt(tab', rest, i - 1);
      assert TableAt(tab, turns, j) == TableAt(tab', rest, j - 1);
    }
  }

  lemma {:induction false} TableIsSound<Task>(tab: Table<Task>, turns: seq<Turn<Task>>, i: nat)
    requires Sound(tab) && LegalRun(tab, turns) && i <= |turns|
    ensures Sound(TableAt(tab, turns, i))
    decreases i
  {
    if i > 0 {
      StepKeepsSound(tab, turns[0]);
      TableIsSound(Step(tab, turns[0]), turns[1..], i - 1);
    }
  }

  /** A run that gets past the Tick of position q started before that position's sleep read the clock. */
  lemma {:induction false} BeforeSample<Task>(tab: Table<Task>, turns: seq<Turn<Task>>, times: seq<int>,
                                              calls: seq<Call>, q: nat, j: nat)
    requires Clocked(tab, turns, times, calls) && j < |turns| && q < |calls|
    requires tab.pos <= q && !Passed(tab, q) && Passed(TableAt(tab, turns, j), q)
    ensures times[0] <= calls[q].now
    decreases j
  {
    if !(turns[0].Loop? && tab.phase == AtTick && tab.pos == q) {
      BeforeSample(Step(tab, turns[0]), turns[1..], times[1..], calls, q, j - 1);
    }
  }

  /** A turn at a position past q comes after the sleep of position q has returned. */
  lemma {:induction false} AfterWake<Task>(tab: Table<Task>, turns: seq<Turn<Task>>, times: seq<int>,
                                           calls: seq<Call>, q: nat, j: nat)
    requires Clocked(tab, turns, times, calls) && j < |turns|
    requires tab.pos <= q < TableAt(tab, turns, j).pos
    ensures q < |calls| && calls[q].wake <= times[j]
    decreases j
  {
    if turns[0].Loop? && tab.phase == Ticked && tab.pos == q {
      TimesGrow(tab, turns, times, calls, j);
    } else {
      AfterWake(Step(tab, turns[0]), turns[1..], times[1..], calls, q, j - 1);
    }
  }

  lemma StillUnmentioned<Task>(turns: seq<Turn<Task>>, j: nat, task: Task)
    requires 1 <= j <= |turns| && !Mentions(turns[..j], task)
    ensures !Mentions(turns[1..][..j - 1], task) && (turns[0].Loop? || turns[0].task != task)
  {
    assert turns[..j][0] == turns[0];
    var rest := turns[1..][..j - 1];
    forall i | 0 <= i < |rest| ensures rest[i].Loop? || rest[i].task != task {
      assert rest[i] == turns[..j][i + 1];
    }
  }

  /** A pending task is handed out only at its due position. */
  lemma {:induction false} HandedWhenDue<Task>(tab: Table<Task>, turns: seq<Turn<Task>>, j: nat, task: Task)
    requires Sound(tab) && LegalRun(tab, turns) && j < |turns|
    requires task in tab.due && !Mentions(turns[..j], task)
    requires Handed(TableAt(tab, turns, j), turns[j], task) != []
    ensures TableAt(tab, turns, j).pos == tab.due[task]
    decreases j
  {
    if j > 0 {
      StepKeepsSound(tab, turns[0]);
      StillUnmentioned(turns, j, task);
      if task in Step(tab, turns[0]).due {
        HandedWhenDue(Step(tab, turns[0]), turns[1..], j - 1, task);
      } else {
        NotHanded(Step(tab, turns[0]), turns[1..], j - 1, task);
      }
    }
  }

  lemma {:induction false} NotHanded<Task>(tab: Table<Task>, turns: seq<Turn<Task>>, j: nat, task: Task)
    requires LegalRun(tab, turns) && j < |turns| && task !in tab.due && !Mentions(turns[..j], task)
    ensures Handed(TableAt(tab, turns, j), turns[j], task) == []
    decreases j
  {
    if j > 0 {
      StillUnmentioned(turns, j, task);
      NotHanded(Step(tab, turns[0]), turns[1..], j - 1, task);
    }
  }

  /** Turn f hands out the task that turn 0 added, which is due after exactly its delay. */
  ghost predicate AddedAndFired<Task>(tab: Table<Task>, turns: seq<Turn<Task>>, f: nat, task: Task, durationMs: nat) {
    && LegalRun(tab, turns) && 1 <= f < |turns|
    && turns[0] == Add(task, durationMs) && !Mentions(turns[1..f], task)
    && Handed(TableAt(tab, turns, f), turns[f], task) != []
    && OnTime(tab.pos, tab.phase, Ticks(durationMs))
  }

  lemma FiringPosition<Task>(tab: Table<Task>, turns: seq<Turn<Task>>, f: nat, task: Task, durationMs: nat)
    requires Sound(tab) && AddedAndFired(tab, turns, f, task, durationMs)
    ensures var at := TableAt(tab, turns, f);
      at.pos == tab.pos + Ticks(durationMs) && at.phase == AtTick && turns[f].Loop?
  {
    var tab' := Step(tab, turns[0]);
    StepKeepsSound(tab, turns[0]);
    OnTimeExactly(tab.pos, tab.phase, Ticks(durationMs));
    assert turns[1..][..f - 1] == turns[1..f];
    HandedWhenDue(tab', turns[1..], f - 1, task);
  }

  /** A task added for k ticks fires no earlier than k - 3 cycles of wall-clock time after the add. */
  lemma FiresNotTooEarlyOnTheWheel<Task>(origin: int, cycle: nat, calls: seq<Call>, tab: Table<Task>,
                                         turns: seq<Turn<Task>>, times: seq<int>, f: nat, task: Task, durationMs: nat)
    requires IsTimeline(origin, cycle, calls) && Sound(tab) && Clocked(tab, turns, times, calls)
    requires AddedAndFired(tab, turns, f, task, durationMs) && durationMs > 0
    ensures times[f] >= times[0] + (Ticks(durationMs) - 3) * cycle
  {
    var k := Ticks(durationMs);
    FiringPosition(tab, turns, f, task, durationMs);
    if k >= 2 {
      AfterWake(tab, turns, times, calls, tab.pos + k - 1, f);
      BeforeSample(tab, turns, times, calls, tab.pos + 1, f);
      FiresNotTooEarly(origin, cycle, calls, tab.pos, k, times[0], times[f]);
    } else {
      TimesGrow(tab, turns, times, calls, f);
    }
  }

  predicate OnSchedule(origin: int, cycle: nat, lag: nat, calls: seq<Call>, i: nat)
    requires i < |calls|
  {
    calls[i].now <= DeadlineAfter(origin, cycle, calls, i) + cycle + lag
  }

  /** The work of each position is done at most `lag` after its cycle, and within two cycles in all: the
      tick thread may be late now and then, and catches up. */
  ghost predicate Timely(origin: int, cycle: nat, lag: nat, calls: seq<Call>) {
    lag <= cycle && forall i :: 0 <= i < |calls| ==> OnSchedule(origin, cycle, lag, calls, i)
  }

  /** Then the deadlines are exactly the grid of the cycle. */
  lemma TimelyDeadlines(origin: int, cycle: nat, lag: nat, calls: seq<Call>, n: nat)
    requires IsTimeline(origin, cycle, calls) && Timely(origin, cycle, lag, calls) && n <= |calls|
    ensures DeadlineAfter(origin, cycle, calls, n) == origin + n * cycle
  {
    forall i | 0 <= i < n ensures InReach(origin, cycle, calls, i) {
      NeverEarly(origin, cycle, calls, i);
      assert OnSchedule(origin, cycle, lag, calls, i);
    }
    StaysOnTheGrid(origin, cycle, calls, n);
  }

  lemma TickIsSampled<Task>(tab: Table<Task>, turns: seq<Turn<Task>>, times: seq<int>, calls: seq<Call>, f: nat)
    requires Clocked(tab, turns, times, calls) && f < |turns| && turns[f].Loop?
    requires var at := TableAt(tab, turns, f); at.phase == AtTick && at.pos < |calls|
    ensures times[f] <= calls[TableAt(tab, turns, f).pos].now
  {
    ClockedFrom(tab, turns, times, calls, f);
  }

  /** When the tick thread reached a position. */
  function Reached(origin: int, calls: seq<Call>, pos: nat): int
    requires pos <= |calls|
  {
    if pos == 0 then origin else calls[pos - 1].wake
  }

  lemma TimelyCalls(origin: int, cycle: nat, lag: nat, calls: seq<Call>, p: nat, k: nat)
    requires IsTimeline(origin, cycle, calls) && Timely(origin, cycle, lag, calls) && p + k < |calls|
    ensures calls[p + k].now <= Reached(origin, calls, p) + (k + 1) * cycle + lag
  {
    TimelyDeadlines(origin, cycle, lag, calls, p);
    TimelyDeadlines(origin, cycle, lag, calls, p + k);
    NeverEarly(origin, cycle, calls, p);
    assert OnSchedule(origin, cycle, lag, calls, p + k);
    LaterCycles(p, k, cycle);
  }

  lemma LaterCycles(p: nat, k: nat, cycle: nat)
    ensures (p + k) * cycle + cycle == p * cycle + (k + 1) * cycle
  {
  }

  function Start<Task>(): Table<Task> { Table(0, AtTick, map[], {}) }

  /** A run of the wheel from its start, with its times. */
  ghost predicate IsTrace<Task>(origin: int, cycle: nat, lag: nat, calls: seq<Call>, turns: seq<Turn<Task>>,
                                times: seq<int>)
  {
    && IsTimeline(origin, cycle, calls) && Timely(origin, cycle, lag, calls)
    && Clocked(Start(), turns, times, calls) && (times != [] ==> origin <= times[0])
  }

  /** Turn f hands out what turn a has added. */
  ghost predicate Pair<Task>(turns: seq<Turn<Task>>, a: nat, f: nat, task: Task, durationMs: nat) {
    && LegalRun(Start(), turns) && a < f < |turns|
    && turns[a] == Add(task, durationMs) && !Mentions(turns[a + 1..f], task)
    && Handed(TableAt(Start(), turns, f), turns[f], task) != []
  }

  /** When turn i happens, the tick thread has reached its position. */
  lemma ReachedBefore<Task>(origin: int, cycle: nat, lag: nat, calls: seq<Call>, turns: seq<Turn<Task>>,
                            times: seq<int>, i: nat)
    requires IsTrace(origin, cycle, lag, calls, turns, times) && i < |turns|
    ensures var pos := TableAt(Start(), turns, i).pos; pos <= |calls| && Reached(origin, calls, pos) <= times[i]
  {
    var pos := TableAt(Start(), turns, i).pos;
    if pos > 0 {
      AfterWake(Start(), turns, times, calls, pos - 1, i);
    } else {
      TimesGrow(Start(), turns, times, calls, i);
    }
  }

  /** The rest of the run from turn a. */
  lemma PairIsAddedAndFired<Task>(turns: seq<Turn<Task>>, a: nat, f: nat, task: Task, durationMs: nat)
    requires Pair(turns, a, f, task, durationMs)
    requires var tab := TableAt(Start(), turns, a); OnTime(tab.pos, tab.phase, Ticks(durationMs))
    ensures var tab, at := TableAt(Start(), turns, a), TableAt(Start(), turns, f);
      && Sound(tab) && AddedAndFired(tab, turns[a..], f - a, task, durationMs)
      && at.phase == AtTick && turns[f].Loop? && at.pos == tab.pos + Ticks(durationMs)
  {
    TableIsSound(Start(), turns, a);
    TableFrom(Start(), turns, a, f);
    assert turns[a..][1..f - a] == turns[a + 1..f];
    FiringPosition(TableAt(Start(), turns, a), turns[a..], f - a, task, durationMs);
  }

  /** The wall-clock window of a firing, anywhere in a run, on a tick thread that keeps up: a task added
      for k ticks fires between k - 3 cycles and k + 1 cycles and the lag after the add. */
  lemma FiringWindow<Task>(origin: int, cycle: nat, lag: nat, calls: seq<Call>, turns: seq<Turn<Task>>, times: seq<int>,
                           a: nat, f: nat, task: Task, durationMs: nat, k: nat)
    requires IsTrace(origin, cycle, lag, calls, turns, times) && Pair(turns, a, f, task, durationMs) && durationMs > 0
    requires k == Ticks(durationMs) && TableAt(Start(), turns, f).pos < |calls|
    requires var tab := TableAt(Start(), turns, a); OnTime(tab.pos, tab.phase, k)
    ensures (k - 3) * cycle <= times[f] - times[a] <= (k + 1) * cycle + lag
  {
    var tab := TableAt(Start(), turns, a);
    PairIsAddedAndFired(turns, a, f, task, durationMs);
    ClockedFrom(Start(), turns, times, calls, a);
    FiresNotTooEarlyOnTheWheel(origin, cycle, calls, tab, turns[a..], times[a..], f - a, task, durationMs);
    ReachedBefore(origin, cycle, lag, calls, turns, times, a);
    TickIsSampled(Start(), turns, times, calls, f);
    TimelyCalls(origin, cycle, lag, calls, tab.pos, k);
  }

  /** The wheel and its clock fire at most this much before a whole number of milliseconds after the add. */
  const EARLY_NS := 3 * CYCLE_NS

  /** And at most this much after: on top of the lag, the time from the end of the callback to its add, and
      from the firing to the start of the callback. */
  function LateNs(lag: nat, latency: nat, dispatch: nat): nat { 3 * NS_PER_MS + lag + latency + dispatch }

  /** What the callback that ended last asks for. */
  function ReaddMs(starts: seq<nat>, intervalMs: nat, end: nat): nat
    requires starts != [] && starts[|starts| - 1] <= end
  {
    NextDuration(AccumulatedError(starts, intervalMs), intervalMs, end - starts[|starts| - 1])
  }

  /** Up to about a second every phase of the tick loop will do; longer delays want no wrap in progress. */
  predicate WheelReaches<Task>(tab: Table<Task>, intervalMs: nat) {
    intervalMs + 7 <= (WORK_WHEEL_SIZE - 1) * TIMER_RESOLUTION_MS ||
    ((tab.phase == AtTick || tab.phase == Ticked) &&
     intervalMs + 7 <= WORK_WHEEL_SIZE * ASSISTANT_WHEEL_SIZE * TIMER_RESOLUTION_MS)
  }

  lemma ReaddIsOnTime<Task>(tab: Table<Task>, errorNs: int, intervalMs: nat, executeNs: nat)
    requires Sound(tab) && WheelReaches(tab, intervalMs) && errorNs >= -NS_PER_MS - EARLY_NS
    ensures OnTime(tab.pos, tab.phase, Ticks(NextDuration(errorNs, intervalMs, executeNs)))
  {
    var ms := NextDuration(errorNs, intervalMs, executeNs);
    assert RoundToMs(errorNs) >= -7 && RoundToMs(executeNs) >= 0;
    assert ms <= intervalMs + 7;
    if Ticks(ms) < WORK_WHEEL_SIZE {
      ShortDelaysAreOnTime(tab.pos, tab.phase, Ticks(ms));
    } else {
      OnTimeBetweenWraps(tab.pos, tab.phase, Ticks(ms));
      OnTimeExactly(tab.pos, tab.phase, Ticks(ms));
    }
  }

  /** The turns at which the wheel took a re-add and handed it out. */
  datatype Lap = Lap(added: nat, fired: nat)

  /** Callback n, from 1, was added by the one before it and handed out by the wheel. */
  ghost predicate LapOk<Task>(calls: seq<Call>, turns: seq<Turn<Task>>, times: seq<int>, task: Task, intervalMs: nat,
                              starts: seq<nat>, ends: seq<nat>, lap: Lap, n: nat, latency: nat, dispatch: nat)
    requires 1 <= n < |starts| == |ends|
  {
    && starts[n - 1] <= ends[n - 1] && |times| == |turns|
    && Pair(turns, lap.added, lap.fired, task, ReaddMs(starts[..n], intervalMs, ends[n - 1]))
    && TableAt(Start(), turns, lap.fired).pos < |calls|
    && WheelReaches(TableAt(Start(), turns, lap.added), intervalMs)
    && ends[n - 1] <= times[lap.added] <= ends[n - 1] + latency
    && times[lap.fired] <= starts[n] <= times[lap.fired] + dispatch
  }

  ghost predicate IsPeriodic<Task>(calls: seq<Call>, turns: seq<Turn<Task>>, times: seq<int>, task: Task,
                                   intervalMs: nat, starts: seq<nat>, ends: seq<nat>, laps: seq<Lap>,
                                   longest: nat, latency: nat, dispatch: nat)
  {
    && |starts| == |ends| == |laps| + 1
    && (forall n :: 0 <= n < |starts| ==> 0 < starts[n] <= ends[n] <= starts[n] + longest)
    && (forall i :: 0 <= i < |laps| ==>
          LapOk(calls, turns, times, task, intervalMs, starts, ends, laps[i], i + 1, latency, dispatch))
  }

  /** One lap on the wheel starts the callback in the window around its aim that a run allows. */
  lemma LapHitsTheAim<Task>(origin: int, lag: nat, calls: seq<Call>, turns: seq<Turn<Task>>, times: seq<int>,
                            task: Task, intervalMs: nat, starts: seq<nat>, ends: seq<nat>, lap: Lap, n: nat,
                            latency: nat, dispatch: nat)
    requires IsTrace(origin, CYCLE_NS, lag, calls, turns, times) && 1 <= n < |starts| == |ends|
    requires LapOk(calls, turns, times, task, intervalMs, starts, ends, lap, n, latency, dispatch)
    requires AccumulatedError(starts[..n], intervalMs) >= -NS_PER_MS - EARLY_NS
    ensures var aim := Aim(starts[..n], intervalMs, ends[n - 1]);
      aim - EARLY_NS <= starts[n] <= aim + LateNs(lag, latency, dispatch)
  {
    var ms := ReaddMs(starts[..n], intervalMs, ends[n - 1]);
    var tab, k := TableAt(Start(), turns, lap.added), Ticks(ms);
    TableIsSound(Start(), turns, lap.added);
    ReaddIsOnTime(tab, AccumulatedError(starts[..n], intervalMs), intervalMs, ends[n - 1] - starts[n - 1]);
    FiringWindow(origin, CYCLE_NS, lag, calls, turns, times, lap.added, lap.fired, task, ms, k);
  }

  /** A run that does not drift is never so early that its next duration leaves the wheel. */
  lemma ErrorIsSmall(starts: seq<nat>, ends: seq<nat>, intervalMs: nat, longest: nat, early: nat, late: nat)
    requires starts != [] && IsRun(starts, ends, intervalMs, longest, early, late)
    requires longest + late + 4 * NS_PER_MS <= intervalMs * NS_PER_MS
    ensures AccumulatedError(starts, intervalMs) >= -NS_PER_MS - early
  {
    DoesNotDrift(starts, ends, intervalMs, longest, early, late);
    RunStartsPositive(starts, ends, intervalMs, longest, early, late);
    ErrorTelescopes(starts, intervalMs, 0);
  }

  lemma {:induction false} LapsAreARun<Task>(origin: int, lag: nat, calls: seq<Call>, turns: seq<Turn<Task>>,
                                             times: seq<int>, task: Task, intervalMs: nat,
                                             starts: seq<nat>, ends: seq<nat>,
                                             laps: seq<Lap>, longest: nat, latency: nat, dispatch: nat, n: nat)
    requires IsTrace(origin, CYCLE_NS, lag, calls, turns, times)
    requires IsPeriodic(calls, turns, times, task, intervalMs, starts, ends, laps, longest, latency, dispatch)
    requires longest + LateNs(lag, latency, dispatch) + 4 * NS_PER_MS <= intervalMs * NS_PER_MS
    requires 1 <= n <= |starts|
    ensures IsRun(starts[..n], ends[..n], intervalMs, longest, EARLY_NS, LateNs(lag, latency, dispatch))
    decreases n
  {
    var late := LateNs(lag, latency, dispatch);
    assert starts[..n][..n - 1] == starts[..n - 1] && ends[..n][..n - 1] == ends[..n - 1];
    if n > 1 {
      LapsAreARun(origin, lag, calls, turns, times, task, intervalMs, starts, ends, laps,
                  longest, latency, dispatch, n - 1);
      ErrorIsSmall(starts[..n - 1], ends[..n - 1], intervalMs, longest, EARLY_NS, late);
      LapHitsTheAim(origin, lag, calls, turns, times, task, intervalMs, starts, ends, laps[n - 2], n - 1,
                    latency, dispatch);
    }
  }

  /** The whole timer does not drift: with the periodic callback, the wheel and the tick thread together,
      every start of a run of any length stays between 7 ms before its place on the grid that the first
      start set, and 4 ms plus the lag and the two latencies after it. */
  lemma TimerKeepsTheGrid<Task>(origin: int, lag: nat, calls: seq<Call>, turns: seq<Turn<Task>>, times: seq<int>,
                                task: Task, intervalMs: nat, starts: seq<nat>, ends: seq<nat>, laps: seq<Lap>,
                                longest: nat, latency: nat, dispatch: nat, n: nat)
    requires IsTrace(origin, CYCLE_NS, lag, calls, turns, times)
    requires IsPeriodic(calls, turns, times, task, intervalMs, starts, ends, laps, longest, latency, dispatch)
    requires longest + lag + latency + dispatch + 7 * NS_PER_MS <= intervalMs * NS_PER_MS
    requires n < |starts|
    ensures -7 * NS_PER_MS <= starts[n] - (starts[0] + n * intervalMs * NS_PER_MS)
         <= 4 * NS_PER_MS + lag + latency + dispatch
  {
    LapsAreARun(origin, lag, calls, turns, times, task, intervalMs, starts, ends, laps,
                longest, latency, dispatch, n + 1);
    DoesNotDrift(starts[..n + 1], ends[..n + 1], intervalMs, longest, EARLY_NS, LateNs(lag, latency, dispatch));
  }
}
