/** What the timing wheel is for, without wheels: a table from each live task to the tick at which it
    is due, and the loop of the tick thread as a sequence of critical sections.

    A position is the number of times the work wheel has advanced since the start. One Tick happens at
    each position. Other threads may add and drop tasks between any two sections of the loop. */
module TimerTable {

  const WORK_WHEEL_SIZE := 512
  const ASSISTANT_WHEEL_SIZE := 64
  const TIMER_RESOLUTION_MS := 2

  /** Where the tick thread is in its loop. */
  datatype Phase =
    | AtTick             // about to run Tick
    | Ticked             // Tick done, sleeping
    | WorkReset          // the work index has wrapped to 0, the assistant index not advanced yet
    | CascadePending     // the assistant index has advanced, its slot not emptied yet

  datatype Table<!Task> = Table(pos: nat, phase: Phase, due: map<Task, nat>, expired: set<Task>)

  /** One turn of the schedule: a call from another thread, or the next section of the tick loop. */
  datatype Turn<Task> = Add(task: Task, durationMs: nat) | Expire(task: Task) | Loop

  /** The duration in ticks, rounded up. */
  function Ticks(durationMs: nat): (k: nat)
    ensures (k - 1) * TIMER_RESOLUTION_MS < durationMs <= k * TIMER_RESOLUTION_MS
  {
    (durationMs + TIMER_RESOLUTION_MS - 1) / TIMER_RESOLUTION_MS
  }

  /** The wrap phases occur only where the work index is 0, and not at the start. */
  predicate PhaseOk(pos: nat, phase: Phase) {
    phase == WorkReset || phase == CascadePending ==> pos % WORK_WHEEL_SIZE == 0 && pos > 0
  }

  /** How often the assistant wheel has advanced. */
  function Revolution(pos: nat, phase: Phase): int {
    pos / WORK_WHEEL_SIZE - if phase == WorkReset then 1 else 0
  }

  /** The number of full revolutions until the assistant slot `ahead` slots from here is cascaded. */
  function Wait(phase: Phase, ahead: nat): nat
    requires ahead >= 1
  {
    if phase == CascadePending then ahead % ASSISTANT_WHEEL_SIZE else 1 + (ahead - 1) % ASSISTANT_WHEEL_SIZE
  }

  /** The position at which a task added here for k ticks ahead is fired. */
  function DuePosition(pos: nat, phase: Phase, k: nat): (d: nat)
    requires PhaseOk(pos, phase)
    ensures d >= pos && (phase == Ticked ==> d > pos)
  {
    var index := pos % WORK_WHEEL_SIZE + k;
    if index < WORK_WHEEL_SIZE then
      // the slot under the hand was emptied by this position's Tick, so it comes up a lap later
      if k == 0 && phase == Ticked then pos + WORK_WHEEL_SIZE else pos + k
    else if index / WORK_WHEEL_SIZE == 1 && index % WORK_WHEEL_SIZE < pos % WORK_WHEEL_SIZE then
      pos + k
    else
      (Revolution(pos, phase) + Wait(phase, index / WORK_WHEEL_SIZE)) * WORK_WHEEL_SIZE + index % WORK_WHEEL_SIZE
  }

  /** Exactly when a task fires after the ticks it was added for. */
  predicate OnTime(pos: nat, phase: Phase, k: nat) {
    var cur := pos % WORK_WHEEL_SIZE;
    match phase
    case AtTick => cur + k < WORK_WHEEL_SIZE * (ASSISTANT_WHEEL_SIZE + 1)
    case Ticked => k >= 1 && cur + k < WORK_WHEEL_SIZE * (ASSISTANT_WHEEL_SIZE + 1)
    case WorkReset => k < WORK_WHEEL_SIZE
    case CascadePending => k < WORK_WHEEL_SIZE * ASSISTANT_WHEEL_SIZE
  }

  /** A task is on time exactly under that guard; it is early by whole revolutions otherwise, except
      that zero ticks after the Tick wait one lap. */
  lemma OnTimeExactly(pos: nat, phase: Phase, k: nat)
    requires PhaseOk(pos, phase)
    ensures DuePosition(pos, phase, k) == pos + k <==> OnTime(pos, phase, k)
    ensures phase == WorkReset && WORK_WHEEL_SIZE <= k < WORK_WHEEL_SIZE * (ASSISTANT_WHEEL_SIZE + 1) ==>
      DuePosition(pos, phase, k) == pos + k - WORK_WHEEL_SIZE
  {
  }

  /** Between wraps, any delay of 1 to 32768 ticks is kept at every position. */
  lemma OnTimeBetweenWraps(pos: nat, phase: Phase, k: nat)
    requires phase == AtTick || phase == Ticked
    requires 1 <= k <= WORK_WHEEL_SIZE * ASSISTANT_WHEEL_SIZE
    ensures DuePosition(pos, phase, k) == pos + k
  {
    OnTimeExactly(pos, phase, k);
  }

  /** Delays of less than a lap are kept in every phase, wraps included. */
  lemma ShortDelaysAreOnTime(pos: nat, phase: Phase, k: nat)
    requires PhaseOk(pos, phase) && 1 <= k < WORK_WHEEL_SIZE
    ensures OnTime(pos, phase, k) && DuePosition(pos, phase, k) == pos + k
  {
    OnTimeExactly(pos, phase, k);
  }

  /** Every live task is still ahead of the hand. */
  ghost predicate Sound<Task>(tab: Table<Task>) {
    && PhaseOk(tab.pos, tab.phase)
    && (forall t :: t in tab.due ==>
          t !in tab.expired && tab.due[t] >= tab.pos && (tab.phase == Ticked ==> tab.due[t] > tab.pos))
  }

  /** A caller holds a shared pointer to the task it adds, and adds it only while it is not pending. */
  predicate Legal<Task(==)>(tab: Table<Task>, turn: Turn<Task>) {
    turn.Add? ==> turn.task !in tab.due && turn.task !in tab.expired
  }

  /** The tasks that Tick hands out at this position. */
  function DueNow<Task(==)>(tab: Table<Task>): set<Task> {
    set t | t in tab.due && tab.due[t] == tab.pos
  }

  function LoopStep<Task(==)>(tab: Table<Task>): Table<Task> {
    match tab.phase
    case AtTick => tab.(due := tab.due - DueNow(tab), phase := Ticked)
    case Ticked =>
      tab.(pos := tab.pos + 1, phase := if (tab.pos + 1) % WORK_WHEEL_SIZE == 0 then WorkReset else AtTick)
    case WorkReset => tab.(phase := CascadePending)
    case CascadePending => tab.(phase := AtTick)
  }

  function AddTo<Task(==)>(tab: Table<Task>, task: Task, k: nat): Table<Task>
    requires PhaseOk(tab.pos, tab.phase)
  {
    tab.(due := tab.due[task := DuePosition(tab.pos, tab.phase, k)])
  }

  function ExpireIn<Task(==)>(tab: Table<Task>, task: Task): Table<Task> {
    tab.(due := tab.due - {task}, expired := tab.expired + {task})
  }

  function Step<Task(==)>(tab: Table<Task>, turn: Turn<Task>): Table<Task>
    requires PhaseOk(tab.pos, tab.phase)
  {
    match turn
    case Add(task, durationMs) => AddTo(tab, task, Ticks(durationMs))
    case Expire(task) => ExpireIn(tab, task)
    case Loop => LoopStep(tab)
  }

  lemma StepKeepsSound<Task>(tab: Table<Task>, turn: Turn<Task>)
    requires Sound(tab) && Legal(tab, turn)
    ensures Sound(Step(tab, turn))
  {
  }

  ghost predicate LegalRun<Task>(tab: Table<Task>, turns: seq<Turn<Task>>)
    decreases turns
  {
    turns == [] || (PhaseOk(tab.pos, tab.phase) && Legal(tab, turns[0]) && LegalRun(Step(tab, turns[0]), turns[1..]))
  }

  ghost function After<Task>(tab: Table<Task>, turns: seq<Turn<Task>>): Table<Task>
    requires LegalRun(tab, turns)
    decreases turns
  {
    if turns == [] then tab else After(Step(tab, turns[0]), turns[1..])
  }

  /** When a turn hands the task out: at a Tick at which it is due. */
  function Handed<Task(==)>(tab: Table<Task>, turn: Turn<Task>, task: Task): seq<nat> {
    if turn.Loop? && tab.phase == AtTick && task in DueNow(tab) then [tab.pos] else []
  }

  /** The positions at which a task is handed out along a run, in order. */
  ghost function Firings<Task>(tab: Table<Task>, turns: seq<Turn<Task>>, task: Task): seq<nat>
    requires LegalRun(tab, turns)
    decreases turns
  {
    if turns == [] then []
    else
      Handed(tab, turns[0], task) + Firings(Step(tab, turns[0]), turns[1..], task)
  }

  /** The Tick at position d has happened. */
  predicate Passed<Task>(tab: Table<Task>, d: nat) {
    tab.pos > d || (tab.pos == d && tab.phase == Ticked)
  }

  predicate Mentions<Task(==)>(turns: seq<Turn<Task>>, task: Task) {
    exists i :: 0 <= i < |turns| && !turns[i].Loop? && turns[i].task == task
  }

  lemma {:induction false} NoFirings<Task>(tab: Table<Task>, turns: seq<Turn<Task>>, task: Task)
    requires Sound(tab) && LegalRun(tab, turns) && task !in tab.due && !Mentions(turns, task)
    ensures Firings(tab, turns, task) == []
    decreases turns
  {
    if turns != [] {
      StepKeepsSound(tab, turns[0]);
      assert forall i :: 0 <= i < |turns[1..]| ==> turns[1..][i] == turns[i + 1];
      NoFirings(Step(tab, turns[0]), turns[1..], task);
    }
  }

  /** A task whose last owner is gone never fires again, whatever else happens. */
  lemma {:induction false} ExpiredNeverFires<Task>(tab: Table<Task>, turns: seq<Turn<Task>>, task: Task)
    requires Sound(tab) && LegalRun(tab, turns) && task in tab.expired
    ensures Firings(tab, turns, task) == []
    decreases turns
  {
    if turns != [] {
      StepKeepsSound(tab, turns[0]);
      ExpiredNeverFires(Step(tab, turns[0]), turns[1..], task);
    }
  }

  /** Over any run in which a task is dropped at some turn, it fires only before that turn: a stopped timer
      stays silent. */
  lemma {:induction false} DroppedTaskFiresOnlyBefore<Task>(tab: Table<Task>, turns: seq<Turn<Task>>, i: nat,
                                                            task: Task)
    requires Sound(tab) && LegalRun(tab, turns) && i < |turns| && turns[i] == Expire(task)
    ensures LegalRun(tab, turns[..i]) && Firings(tab, turns, task) == Firings(tab, turns[..i], task)
    decreases turns
  {
    StepKeepsSound(tab, turns[0]);
    if i == 0 {
      ExpiredNeverFires(Step(tab, turns[0]), turns[1..], task);
    } else {
      assert turns[..i][0] == turns[0] && turns[..i][1..] == turns[1..][..i - 1];
      DroppedTaskFiresOnlyBefore(Step(tab, turns[0]), turns[1..], i - 1, task);
    }
  }

  /** A pending task that is neither dropped nor added again fires exactly once, at its due position, as
      soon as that position's Tick has happened, and at no other position. */
  lemma {:induction false} FiresOnceWhenDue<Task>(tab: Table<Task>, turns: seq<Turn<Task>>, task: Task)
    requires Sound(tab) && LegalRun(tab, turns) && task in tab.due && !Mentions(turns, task)
    ensures Firings(tab, turns, task) == if Passed(After(tab, turns), tab.due[task]) then [tab.due[task]] else []
    decreases turns
  {
    if turns != [] {
      var tab' := Step(tab, turns[0]);
      StepKeepsSound(tab, turns[0]);
      assert forall i :: 0 <= i < |turns[1..]| ==> turns[1..][i] == turns[i + 1];
      if turns[0].Loop? && tab.phase == AtTick && task in DueNow(tab) {
        NoFirings(tab', turns[1..], task);
        PassedStays(tab', turns[1..], tab.pos);
      } else {
        assert tab'.due[task] == tab.due[task];
        FiresOnceWhenDue(tab', turns[1..], task);
      }
    }
  }

  lemma {:induction false} PassedStays<Task>(tab: Table<Task>, turns: seq<Turn<Task>>, d: nat)
    requires LegalRun(tab, turns) && Passed(tab, d)
    ensures Passed(After(tab, turns), d)
    decreases turns
  {
    if turns != [] {
      PassedStays(Step(tab, turns[0]), turns[1..], d);
    }
  }

  /** The timer's promise: a task added now for a duration, and kept alive, fires exactly once, that
      many ticks from now, if and only if the add is on time in the sense of OnTime; in every other
      case it fires exactly once at DuePosition. */
  lemma AddedTaskFires<Task>(tab: Table<Task>, task: Task, durationMs: nat, turns: seq<Turn<Task>>)
    requires Sound(tab) && LegalRun(tab, [Add(task, durationMs)] + turns) && !Mentions(turns, task)
    ensures var k, d := Ticks(durationMs), DuePosition(tab.pos, tab.phase, Ticks(durationMs));
      && Firings(tab, [Add(task, durationMs)] + turns, task)
         == (if Passed(After(tab, [Add(task, durationMs)] + turns), d) then [d] else [])
      && (d == tab.pos + k <==> OnTime(tab.pos, tab.phase, k))
  {
    var all := [Add(task, durationMs)] + turns;
    assert all[1..] == turns;
    StepKeepsSound(tab, all[0]);
    FiresOnceWhenDue(Step(tab, all[0]), turns, task);
    OnTimeExactly(tab.pos, tab.phase, Ticks(durationMs));
  }
}
