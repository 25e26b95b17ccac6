/** The two-level timing wheel of `cyber/timer/timing_wheel.cc`, proved against the plain table of
    module TimerTable. A weak pointer in a bucket is a task with a note of which tasks have expired. */
module TimingWheel {
  import opened Helpers
  import opened PeriodicTimer
  import opened TimerTable

  /** Which wheel a pending task is filed in. */
  datatype Place = InWork | InAssistant

  /** The tasks of a bucket whose weak pointer still locks, in order. */
  function Live<Task(==)>(bucket: seq<Task>, expired: set<Task>): seq<Task> {
    if bucket == [] then []
    else if bucket[0] in expired then Live(bucket[1..], expired)
    else [bucket[0]] + Live(bucket[1..], expired)
  }

  /** The live tasks of the bucket are exactly the given ones, each once. */
  ghost predicate Holds<Task>(bucket: seq<Task>, expired: set<Task>, content: set<Task>) {
    var live := Live(bucket, expired);
    && (forall t :: t in live ==> t in content)
    && (forall t :: t in content ==> t in live)
    && Distinct(live)
  }

  ghost function WorkContent<Task>(due: map<Task, nat>, place: map<Task, Place>, i: nat): set<Task> {
    set t | t in due && t in place && place[t] == InWork && due[t] % WORK_WHEEL_SIZE == i
  }

  ghost function AssistantContent<Task>(due: map<Task, nat>, place: map<Task, Place>, j: nat): set<Task> {
    set t | t in due && t in place && place[t] == InAssistant && due[t] / WORK_WHEEL_SIZE % ASSISTANT_WHEEL_SIZE == j
  }

  /** Every pending task is filed in exactly one slot of one wheel, once, by its due position. */
  ghost predicate Filed<Task>(work: seq<seq<Task>>, assistant: seq<seq<Task>>, due: map<Task, nat>,
                              place: map<Task, Place>, expired: set<Task>)
  {
    && |work| == WORK_WHEEL_SIZE && |assistant| == ASSISTANT_WHEEL_SIZE
    && place.Keys == due.Keys
    && (forall i :: 0 <= i < |work| ==> Holds(work[i], expired, WorkContent(due, place, i)))
    && (forall j :: 0 <= j < |assistant| ==> Holds(assistant[j], expired, AssistantContent(due, place, j)))
  }

  /** The work wheel reaches less than a lap ahead, the assistant wheel at most 64 revolutions. */
  predicate InRange(pos: nat, phase: Phase, d: nat, place: Place) {
    match place
    case InWork => pos <= d + (if phase == Ticked then -1 else 0) < pos + WORK_WHEEL_SIZE
    case InAssistant =>
      var ahead := d / WORK_WHEEL_SIZE - Revolution(pos, phase);
      if phase == CascadePending then 0 <= ahead < ASSISTANT_WHEEL_SIZE else 0 < ahead <= ASSISTANT_WHEEL_SIZE
  }

  ghost predicate Ranged<Task>(tab: Table<Task>, place: map<Task, Place>) {
    forall t :: t in tab.due && t in place ==> InRange(tab.pos, tab.phase, tab.due[t], place[t])
  }

  lemma {:induction false} LiveConcat<Task>(a: seq<Task>, b: seq<Task>, expired: set<Task>)
    ensures Live(a + b, expired) == Live(a, expired) + Live(b, expired)
  {
    if a == [] {
      assert a + b == b;
    } else {
      LiveConcat(a[1..], b, expired);
      assert (a + b)[0] == a[0] && (a + b)[1..] == a[1..] + b;
      Reassociate([a[0]], Live(a[1..], expired), Live(b, expired));
    }
  }

  lemma HoldsAppend<Task>(bucket: seq<Task>, expired: set<Task>, content: set<Task>, t: Task)
    requires Holds(bucket, expired, content) && t !in content && t !in expired
    ensures Holds(bucket + [t], expired, content + {t})
  {
    LiveConcat(bucket, [t], expired);
    assert Live([t], expired) == [t];
  }

  lemma HoldsTail<Task>(bucket: seq<Task>, expired: set<Task>, content: set<Task>)
    requires bucket != [] && Holds(bucket, expired, content)
    ensures Holds(bucket[1..], expired, if bucket[0] in expired then content else content - {bucket[0]})
    ensures bucket[0] !in expired ==> bucket[0] in content
  {
    var live, rest := Live(bucket, expired), Live(bucket[1..], expired);
    if bucket[0] !in expired {
      assert live == [bucket[0]] + rest;
      forall t ensures t in rest <==> t in content - {bucket[0]} {
        assert t in live <==> t == bucket[0] || t in rest;
        if t in rest {
          var i :| 0 <= i < |rest| && rest[i] == t;
          assert live[i + 1] == t && live[0] != live[i + 1];
        }
      }
      assert Distinct(rest) by {
        forall i, j | 0 <= i < j < |rest| ensures rest[i] != rest[j] {
          assert live[i + 1] != live[j + 1];
        }
      }
    }
  }

  lemma {:induction false} LiveExpire<Task>(bucket: seq<Task>, expired: set<Task>, t: Task)
    ensures Live(bucket, expired + {t}) == Live(Live(bucket, expired), {t})
  {
    if bucket != [] {
      LiveExpire(bucket[1..], expired, t);
    }
  }

  lemma {:induction false} LiveMembers<Task>(bucket: seq<Task>, expired: set<Task>)
    ensures forall x :: x in Live(bucket, expired) ==> x in bucket && x !in expired
    ensures forall x :: x in bucket && x !in expired ==> x in Live(bucket, expired)
  {
    if bucket != [] {
      LiveMembers(bucket[1..], expired);
      assert bucket == [bucket[0]] + bucket[1..];
    }
  }

  lemma {:induction false} LiveDistinct<Task>(bucket: seq<Task>, expired: set<Task>)
    requires Distinct(bucket)
    ensures Distinct(Live(bucket, expired))
  {
    if bucket != [] {
      var rest := bucket[1..];
      LiveDistinct(rest, expired);
      LiveMembers(rest, expired);
      forall i | 0 <= i < |rest| ensures rest[i] != bucket[0] {
        assert rest[i] == bucket[i + 1];
      }
      var live, tail := Live(bucket, expired), Live(rest, expired);
      if bucket[0] !in expired {
        assert live == [bucket[0]] + tail;
        assert bucket[0] !in tail;
        forall i, j | 0 <= i < j < |live| ensures live[i] != live[j] {
          if i == 0 {
            assert live[j] == tail[j - 1] && tail[j - 1] in tail;
          } else {
            assert live[i] == tail[i - 1] && live[j] == tail[j - 1] && tail[i - 1] != tail[j - 1];
          }
        }
      }
    }
  }

  lemma HoldsExpire<Task>(bucket: seq<Task>, expired: set<Task>, content: set<Task>, t: Task)
    requires Holds(bucket, expired, content)
    ensures Holds(bucket, expired + {t}, content - {t})
  {
    var live := Live(bucket, expired);
    LiveExpire(bucket, expired, t);
    LiveMembers(live, {t});
    LiveDistinct(live, {t});
    forall x | x in Live(live, {t}) ensures x in content - {t} {
      assert x in live;
    }
    forall x | x in content - {t} ensures x in Live(live, {t}) {
      assert x in live;
    }
  }

  /** What a slot holds when one task gets a due position and a place. */
  lemma ContentWith<Task>(due: map<Task, nat>, place: map<Task, Place>, t: Task, d: nat, p: Place, k: nat)
    requires t !in due
    ensures WorkContent(due[t := d], place[t := p], k)
         == WorkContent(due, place, k) + if p == InWork && d % WORK_WHEEL_SIZE == k then {t} else {}
    ensures AssistantContent(due[t := d], place[t := p], k)
         == AssistantContent(due, place, k)
            + if p == InAssistant && d / WORK_WHEEL_SIZE % ASSISTANT_WHEEL_SIZE == k then {t} else {}
  {
  }

  /** What a slot holds when one task of the work wheel is taken out. */
  lemma ContentWithout<Task>(due: map<Task, nat>, place: map<Task, Place>, t: Task, k: nat)
    requires t in due && t in place && place[t] == InWork
    ensures WorkContent(due - {t}, place - {t}, k)
         == WorkContent(due, place, k) - if due[t] % WORK_WHEEL_SIZE == k then {t} else {}
    ensures AssistantContent(due - {t}, place - {t}, k) == AssistantContent(due, place, k)
  {
  }

  /** What a slot holds when one task moves from the assistant wheel to the work wheel. */
  lemma ContentMoved<Task>(due: map<Task, nat>, place: map<Task, Place>, t: Task, k: nat)
    requires t in due && t in place && place[t] == InAssistant
    ensures WorkContent(due, place[t := InWork], k)
         == WorkContent(due, place, k) + if due[t] % WORK_WHEEL_SIZE == k then {t} else {}
    ensures AssistantContent(due, place[t := InWork], k)
         == AssistantContent(due, place, k)
            - if due[t] / WORK_WHEEL_SIZE % ASSISTANT_WHEEL_SIZE == k then {t} else {}
  {
  }

  lemma FileInWork<Task>(work: seq<seq<Task>>, assistant: seq<seq<Task>>, due: map<Task, nat>,
                         place: map<Task, Place>, expired: set<Task>, t: Task, d: nat)
    requires Filed(work, assistant, due, place, expired) && t !in due && t !in expired
    ensures var i := d % WORK_WHEEL_SIZE;
      Filed(work[i := work[i] + [t]], assistant, due[t := d], place[t := InWork], expired)
  {
    var i, due', place' := d % WORK_WHEEL_SIZE, due[t := d], place[t := InWork];
    HoldsAppend(work[i], expired, WorkContent(due, place, i), t);
    forall k | 0 <= k < |work|
      ensures Holds(work[i := work[i] + [t]][k], expired, WorkContent(due', place', k))
    {
      ContentWith(due, place, t, d, InWork, k);
    }
    forall k | 0 <= k < |assistant| ensures Holds(assistant[k], expired, AssistantContent(due', place', k)) {
      ContentWith(due, place, t, d, InWork, k);
    }
  }

  lemma FileInAssistant<Task>(work: seq<seq<Task>>, assistant: seq<seq<Task>>, due: map<Task, nat>,
                              place: map<Task, Place>, expired: set<Task>, t: Task, d: nat)
    requires Filed(work, assistant, due, place, expired) && t !in due && t !in expired
    ensures var j := d / WORK_WHEEL_SIZE % ASSISTANT_WHEEL_SIZE;
      Filed(work, assistant[j := assistant[j] + [t]], due[t := d], place[t := InAssistant], expired)
  {
    var j, due', place' := d / WORK_WHEEL_SIZE % ASSISTANT_WHEEL_SIZE, due[t := d], place[t := InAssistant];
    HoldsAppend(assistant[j], expired, AssistantContent(due, place, j), t);
    forall k | 0 <= k < |assistant|
      ensures Holds(assistant[j := assistant[j] + [t]][k], expired, AssistantContent(due', place', k))
    {
      ContentWith(due, place, t, d, InAssistant, k);
    }
    forall k | 0 <= k < |work| ensures Holds(work[k], expired, WorkContent(due', place', k)) {
      ContentWith(due, place, t, d, InAssistant, k);
    }
  }

  /** Taking the first pointer out of a work bucket: a live task is no longer pending. */
  lemma TakeFromWork<Task>(work: seq<seq<Task>>, assistant: seq<seq<Task>>, due: map<Task, nat>,
                           place: map<Task, Place>, expired: set<Task>, i: nat)
    requires Filed(work, assistant, due, place, expired) && i < |work| && work[i] != []
    ensures var t, rest := work[i][0], work[i := work[i][1..]];
      if t in expired then Filed(rest, assistant, due, place, expired)
      else t in due && place[t] == InWork && due[t] % WORK_WHEEL_SIZE == i &&
           Filed(rest, assistant, due - {t}, place - {t}, expired)
  {
    var t, rest := work[i][0], work[i := work[i][1..]];
    HoldsTail(work[i], expired, WorkContent(due, place, i));
    if t !in expired {
      var due', place' := due - {t}, place - {t};
      forall k | 0 <= k < |work| ensures Holds(rest[k], expired, WorkContent(due', place', k)) {
        ContentWithout(due, place, t, k);
      }
      forall k | 0 <= k < |assistant| ensures Holds(assistant[k], expired, AssistantContent(due', place', k)) {
        ContentWithout(due, place, t, k);
      }
    }
  }

  /** Taking the first pointer out of an assistant bucket: a live task moves to its work slot. */
  lemma MoveToWork<Task>(work: seq<seq<Task>>, assistant: seq<seq<Task>>, due: map<Task, nat>,
                         place: map<Task, Place>, expired: set<Task>, j: nat)
    requires Filed(work, assistant, due, place, expired) && j < |assistant| && assistant[j] != []
    ensures var t, rest := assistant[j][0], assistant[j := assistant[j][1..]];
      if t in expired then Filed(work, rest, due, place, expired)
      else
        && t in due && place[t] == InAssistant && due[t] / WORK_WHEEL_SIZE % ASSISTANT_WHEEL_SIZE == j
        && var i := due[t] % WORK_WHEEL_SIZE;
           Filed(work[i := work[i] + [t]], rest, due, place[t := InWork], expired)
  {
    var t, rest := assistant[j][0], assistant[j := assistant[j][1..]];
    HoldsTail(assistant[j], expired, AssistantContent(due, place, j));
    if t !in expired {
      var i, place' := due[t] % WORK_WHEEL_SIZE, place[t := InWork];
      HoldsAppend(work[i], expired, WorkContent(due, place, i), t);
      forall k | 0 <= k < |work|
        ensures Holds(work[i := work[i] + [t]][k], expired, WorkContent(due, place', k))
      {
        ContentMoved(due, place, t, k);
      }
      forall k | 0 <= k < |assistant| ensures Holds(rest[k], expired, AssistantContent(due, place', k)) {
        ContentMoved(due, place, t, k);
      }
    }
  }

  lemma ExpireFiled<Task>(work: seq<seq<Task>>, assistant: seq<seq<Task>>, due: map<Task, nat>,
                          place: map<Task, Place>, expired: set<Task>, t: Task)
    requires Filed(work, assistant, due, place, expired)
    ensures Filed(work, assistant, due - {t}, place - {t}, expired + {t})
  {
    forall k | 0 <= k < |work|
      ensures Holds(work[k], expired + {t}, WorkContent(due - {t}, place - {t}, k))
    {
      HoldsExpire(work[k], expired, WorkContent(due, place, k), t);
      assert WorkContent(due - {t}, place - {t}, k) == WorkContent(due, place, k) - {t};
    }
    forall k | 0 <= k < |assistant|
      ensures Holds(assistant[k], expired + {t}, AssistantContent(due - {t}, place - {t}, k))
    {
      HoldsExpire(assistant[k], expired, AssistantContent(due, place, k), t);
      assert AssistantContent(due - {t}, place - {t}, k) == AssistantContent(due, place, k) - {t};
    }
  }

  lemma InSlotIsDueNow(pos: nat, d: nat)
    requires InRange(pos, AtTick, d, InWork) && d % WORK_WHEEL_SIZE == pos % WORK_WHEEL_SIZE
    ensures d == pos
  {
  }

  lemma WithoutTask<Task>(tab: Table<Task>, place: map<Task, Place>, t: Task)
    requires Sound(tab) && Ranged(tab, place)
    ensures Sound(tab.(due := tab.due - {t})) && Ranged(tab.(due := tab.due - {t}), place - {t})
  {
  }

  lemma EmptyHoldsNothing<Task>(expired: set<Task>, content: set<Task>)
    requires Holds([], expired, content)
    ensures content == {}
  {
    assert Live<Task>([], expired) == [];
  }

  /** One task handed out at one tick. */
  datatype Firing = Firing(tick: nat, task: TimerTask)

  function FiringsOf(log: seq<Firing>, task: TimerTask): seq<nat> {
    if log == [] then []
    else (if log[0].task == task then [log[0].tick] else []) + FiringsOf(log[1..], task)
  }

  class TimingWheel {
    var running: bool
    var tickCount: nat
    const workWheel: array<seq<TimerTask>>
    const assistantWheel: array<seq<TimerTask>>
    var currentWorkWheelIndex: nat
    var currentAssistantWheelIndex: nat
    var loopAt: Phase  // where the tick thread is in its loop
    var expired: set<TimerTask>  // tasks that no shared pointer keeps alive any more
    ghost var table: Table<TimerTask>
    ghost var place: map<TimerTask, Place>

    ghost predicate Valid()
      reads this, workWheel, assistantWheel, place.Keys
    {
      && workWheel != assistantWheel
      && Sound(table) && table.expired == expired && table.phase == loopAt
      && tickCount == (if loopAt == Ticked then table.pos + 1 else table.pos)
      && currentWorkWheelIndex == table.pos % WORK_WHEEL_SIZE
      && currentAssistantWheelIndex == Revolution(table.pos, table.phase) % ASSISTANT_WHEEL_SIZE
      && Filed(workWheel[..], assistantWheel[..], table.due, place, expired)
      && Ranged(table, place)
      && (forall t :: t in place && t in table.due && place[t] == InAssistant ==>
            t.remainderIntervalMs == table.due[t] % WORK_WHEEL_SIZE)
    }

    constructor ()
      ensures Valid() && fresh(workWheel) && fresh(assistantWheel)
      ensures table == Table(0, AtTick, map[], {}) && !running
    {
      running, tickCount := false, 0;
      workWheel := new seq<TimerTask>[WORK_WHEEL_SIZE](_ => []);
      assistantWheel := new seq<TimerTask>[ASSISTANT_WHEEL_SIZE](_ => []);
      currentWorkWheelIndex, currentAssistantWheelIndex, loopAt := 0, 0, AtTick;
      expired := {};
      table := Table(0, AtTick, map[], {});
      place := map[];
    }

    /** TimerBucket::AddTask on a slot of the work wheel. */
    method PushWork(slot: nat, task: TimerTask, ghost k: nat)
      requires Valid() && task !in table.due && task !in expired
      requires var d := DuePosition(table.pos, table.phase, k);
        slot == d % WORK_WHEEL_SIZE && InRange(table.pos, table.phase, d, InWork)
      modifies this`table, this`place, workWheel
      ensures Valid() && table == AddTo(old(table), task, k)
    {
      FileInWork(workWheel[..], assistantWheel[..], table.due, place, expired, task,
                 DuePosition(table.pos, table.phase, k));
      workWheel[slot] := workWheel[slot] + [task];
      place := place[task := InWork];
      table := AddTo(table, task, k);
      assert workWheel[..] == old(workWheel[..])[slot := old(workWheel[slot]) + [task]];
    }

    /** TimerBucket::AddTask on a slot of the assistant wheel. */
    method PushAssistant(slot: nat, task: TimerTask, ghost k: nat)
      requires Valid() && task !in table.due && task !in expired
      requires var d := DuePosition(table.pos, table.phase, k);
        && slot == d / WORK_WHEEL_SIZE % ASSISTANT_WHEEL_SIZE
        && InRange(table.pos, table.phase, d, InAssistant)
        && task.remainderIntervalMs == d % WORK_WHEEL_SIZE
      modifies this`table, this`place, assistantWheel
      ensures Valid() && table == AddTo(old(table), task, k)
    {
      FileInAssistant(workWheel[..], assistantWheel[..], table.due, place, expired, task,
                      DuePosition(table.pos, table.phase, k));
      assistantWheel[slot] := assistantWheel[slot] + [task];
      place := place[task := InAssistant];
      table := AddTo(table, task, k);
      assert assistantWheel[..] == old(assistantWheel[..])[slot := old(assistantWheel[slot]) + [task]];
    }

    method Start()
      requires Valid()
      modifies this`running
      ensures Valid() && running
    {
      running := true;
    }

    /** AddTask notes the slot in the task before it files it. */
    method SetRemainder(task: TimerTask, slot: nat)
      requires Valid() && task !in table.due
      modifies task`remainderIntervalMs
      ensures Valid() && task.remainderIntervalMs == slot
    {
      task.remainderIntervalMs := slot;
    }

    /** AddTask when the index runs past the end of the work wheel. */
    method AddPastWrap(task: TimerTask, workWheelIndex: nat, ghost k: nat)
      requires Valid() && task !in table.due && task !in expired
      requires workWheelIndex == currentWorkWheelIndex + k && workWheelIndex >= WORK_WHEEL_SIZE
      modifies this`table, this`place, workWheel, assistantWheel, task`remainderIntervalMs
      ensures Valid() && table == AddTo(old(table), task, k)
    {
      var realWorkWheelIndex := workWheelIndex % WORK_WHEEL_SIZE;
      SetRemainder(task, realWorkWheelIndex);
      var assistantTicks := workWheelIndex / WORK_WHEEL_SIZE;
      if assistantTicks == 1 && realWorkWheelIndex < currentWorkWheelIndex {
        NearIsInReach(table.pos, table.phase, k);
        PushWork(realWorkWheelIndex, task, k);
      } else {
        FarIsInReach(table.pos, table.phase, k);
        PushAssistant((currentAssistantWheelIndex + assistantTicks) % ASSISTANT_WHEEL_SIZE, task, k);
      }
    }

    /** Files the task by its next fire duration; starts the tick thread if it is not running. */
    method AddTask(task: TimerTask)
      requires Valid() && task !in table.due && task !in expired
      modifies this`running, this`table, this`place, workWheel, assistantWheel, task`remainderIntervalMs
      ensures Valid() && running
      ensures table == AddTo(old(table), task, Ticks(task.nextFireDurationMs))
    {
      if !running {
        Start();
      }
      var k := Ticks(task.nextFireDurationMs);
      var workWheelIndex := currentWorkWheelIndex + k;
      if workWheelIndex >= WORK_WHEEL_SIZE {
        AddPastWrap(task, workWheelIndex, k);
      } else {
        NearIsInReach(table.pos, table.phase, k);
        PushWork(workWheelIndex, task, k);
      }
    }

    /** The last shared pointer to the task goes away: its weak pointers no longer lock. */
    method ExpireTask(task: TimerTask)
      requires Valid()
      modifies this`expired, this`table, this`place
      ensures Valid() && table == ExpireIn(old(table), task)
      ensures task !in table.due && table.expired == old(table).expired + {task}
      ensures forall t :: t != task && t in old(table).due ==> t in table.due && table.due[t] == old(table).due[t]
    {
      ExpireFiled(workWheel[..], assistantWheel[..], table.due, place, expired, task);
      expired := expired + {task};
      table := ExpireIn(table, task);
      place := place - {task};
    }

    /** Takes the first pointer out of a work bucket, as one turn of the loop in Tick does. */
    method TakeFirst(slot: nat) returns (task: TimerTask)
      requires Valid() && table.phase == AtTick && slot == currentWorkWheelIndex && workWheel[slot] != []
      modifies this`table, this`place, workWheel
      ensures Valid() && task == old(workWheel[slot][0]) && workWheel[slot] == old(workWheel[slot][1..])
      ensures table == if task in expired then old(table) else old(table).(due := old(table).due - {task})
      ensures task !in expired ==> task in DueNow(old(table))
    {
      task := workWheel[slot][0];
      TakeFromWork(workWheel[..], assistantWheel[..], table.due, place, expired, slot);
      if task !in expired {
        InSlotIsDueNow(table.pos, table.due[task]);
        assert task in DueNow(old(table));
        WithoutTask(table, place, task);
        table := table.(due := table.due - {task});
        place := place - {task};
      }
      workWheel[slot] := workWheel[slot][1..];
      assert workWheel[..] == old(workWheel[..])[slot := old(workWheel[slot])[1..]];
    }

    /** The loop of Tick: empties the current slot and hands out its live tasks, all due now. */
    method EmptySlot(slot: nat) returns (fired: seq<TimerTask>, ghost taken: set<TimerTask>)
      requires Valid() && table.phase == AtTick && slot == currentWorkWheelIndex
      modifies this`table, this`place, workWheel
      ensures Valid() && workWheel[slot] == []
      ensures table == old(table).(due := old(table).due - taken) && taken <= DueNow(old(table))
      ensures Distinct(fired) && SameMembers(fired, taken)
    {
      fired, taken := [], {};
      while workWheel[slot] != []
        invariant Valid() && table == old(table).(due := old(table).due - taken)
        invariant taken <= DueNow(old(table)) && Distinct(fired) && SameMembers(fired, taken)
        decreases |workWheel[slot]|
      {
        ghost var before := table;
        var task := TakeFirst(slot);
        if task !in expired {
          TakenNow(old(table), before, taken, task);
          AppendMember(fired, taken, task);
          fired, taken := fired + [task], taken + {task};
        }
      }
    }

    /** Hands out the live tasks of the current slot and empties it: they are exactly the tasks due now. */
    method Tick() returns (fired: seq<TimerTask>)
      requires Valid() && table.phase == AtTick
      modifies this`table, this`place, this`tickCount, this`loopAt, workWheel
      ensures Valid() && table == LoopStep(old(table))
      ensures Distinct(fired) && SameMembers(fired, DueNow(old(table)))
    {
      ghost var taken;
      fired, taken := EmptySlot(currentWorkWheelIndex);
      SlotDone(old(table), taken);
      FinishTick();
    }

    /** The end of Tick: nothing is left that is due at this position. */
    method FinishTick()
      requires Valid() && table.phase == AtTick && Ranged(table.(phase := Ticked), place)
      requires forall t :: t in table.due ==> table.due[t] > table.pos
      modifies this`table, this`tickCount, this`loopAt
      ensures Valid() && table == old(table).(phase := Ticked)
    {
      table := table.(phase := Ticked);
      tickCount := tickCount + 1;
      loopAt := Ticked;
    }

    /** With the slot empty, nothing is due at this position any more. */
    lemma SlotDone(before: Table<TimerTask>, taken: set<TimerTask>)
      requires Valid() && table.phase == AtTick && workWheel[currentWorkWheelIndex] == []
      requires taken <= DueNow(before) && table == before.(due := before.due - taken)
      ensures taken == DueNow(before)
      ensures forall t :: t in table.due ==> table.due[t] > table.pos
      ensures Ranged(table.(phase := Ticked), place)
    {
      var slot := currentWorkWheelIndex;
      assert Holds(workWheel[..][slot], expired, WorkContent(table.due, place, slot));
      EmptyHoldsNothing(expired, WorkContent(table.due, place, slot));
      NothingDueInAssistant(table, place, slot);
      forall t | t in DueNow(before) ensures t in taken {
        assert t !in taken ==> t in table.due;
      }
    }

    /** The hand of the work wheel moves on; a wrap to 0 leaves the assistant wheel one behind. */
    method AdvanceWorkWheel()
      requires Valid() && table.phase == Ticked
      modifies this`currentWorkWheelIndex, this`tickCount, this`loopAt, this`table
      ensures Valid() && table == LoopStep(old(table))
    {
      HandMoves(table.pos);
      currentWorkWheelIndex := (currentWorkWheelIndex + 1) % WORK_WHEEL_SIZE;
      loopAt := if currentWorkWheelIndex == 0 then WorkReset else AtTick;
      ghost var before := table;
      table := LoopStep(table);
      StepKeepsSound(before, Loop);
      AdvanceKeepsRange(before, place);
    }

    method AdvanceAssistantWheel()
      requires Valid() && table.phase == WorkReset
      modifies this`currentAssistantWheelIndex, this`loopAt, this`table
      ensures Valid() && table == LoopStep(old(table))
    {
      currentAssistantWheelIndex := (currentAssistantWheelIndex + 1) % ASSISTANT_WHEEL_SIZE;
      loopAt := CascadePending;
      ghost var before := table;
      table := LoopStep(table);
      StepKeepsSound(before, Loop);
      AdvanceKeepsRange(before, place);
    }

    /** Moves the first pointer of an assistant bucket, as one turn of the loop in Cascade does. */
    method CascadeFirst(slot: nat)
      requires Valid() && table.phase == CascadePending && slot == currentAssistantWheelIndex
      requires assistantWheel[slot] != []
      modifies this`place, workWheel, assistantWheel
      ensures Valid() && assistantWheel[slot] == old(assistantWheel[slot][1..])
    {
      var task := assistantWheel[slot][0];
      MoveToWork(workWheel[..], assistantWheel[..], table.due, place, expired, slot);
      if task !in expired {
        var i := task.remainderIntervalMs;
        assert InRange(table.pos, CascadePending, table.due[task], InAssistant);
        CascadedIsNear(table.pos, table.due[task]);
        workWheel[i] := workWheel[i] + [task];
        place := place[task := InWork];
        assert workWheel[..] == old(workWheel[..])[i := old(workWheel[i]) + [task]];
      }
      assistantWheel[slot] := assistantWheel[slot][1..];
      assert assistantWheel[..] == old(assistantWheel[..])[slot := old(assistantWheel[slot])[1..]];
    }

    /** The loop of Cascade: empties the assistant slot; no task changes its due tick. */
    method EmptyAssistantSlot(slot: nat)
      requires Valid() && table.phase == CascadePending && slot == currentAssistantWheelIndex
      modifies this`place, workWheel, assistantWheel
      ensures Valid() && assistantWheel[slot] == []
    {
      while assistantWheel[slot] != []
        invariant Valid()
        decreases |assistantWheel[slot]|
      {
        CascadeFirst(slot);
      }
    }

    /** Empties the assistant slot of this revolution into the work wheel; no task changes its due tick. */
    method Cascade(slot: nat)
      requires Valid() && table.phase == CascadePending && slot == currentAssistantWheelIndex
      modifies this`table, this`place, this`loopAt, workWheel, assistantWheel
      ensures Valid() && table == LoopStep(old(table))
    {
      EmptyAssistantSlot(slot);
      assert Holds(assistantWheel[..][slot], expired, AssistantContent(table.due, place, slot));
      EmptyHoldsNothing(expired, AssistantContent(table.due, place, slot));
      ghost var before := table;
      table := LoopStep(table);
      loopAt := AtTick;
      CascadeKeepsRange(before, place, slot);
    }

    /** The next section of the tick thread's loop. */
    method Proceed() returns (fired: seq<TimerTask>)
      requires Valid()
      modifies this, workWheel, assistantWheel
      ensures Valid() && table == LoopStep(old(table))
      ensures Distinct(fired)
      ensures SameMembers(fired, if old(table).phase == AtTick then DueNow(old(table)) else {})
    {
      fired := [];
      match loopAt
      case AtTick => fired := Tick();
      case Ticked => AdvanceWorkWheel();
      case WorkReset => AdvanceAssistantWheel();
      case CascadePending => Cascade(currentAssistantWheelIndex);
    }

    /** One turn: a call of another thread, or the next section of the loop with what it hands out. */
    method TakeTurn(turn: Turn<TimerTask>) returns (log: seq<Firing>)
      requires Valid() && Legal(table, turn)
      modifies this, workWheel, assistantWheel, if turn.Loop? then {} else {turn.task}
      ensures Valid() && table == Step(old(table), turn)
      ensures forall task :: FiringsOf(log, task) == Handed(old(table), turn, task)
    {
      match turn
      case Add(task, durationMs) =>
        SetDuration(task, durationMs);
        AddTask(task);
        log := [];
      case Expire(task) =>
        ExpireTask(task);
        log := [];
      case Loop =>
        var tick := tickCount;
        var fired := Proceed();
        log := Entries(tick, fired);
        forall task ensures FiringsOf(log, task) == Handed(old(table), turn, task) {
          EntriesFirings(tick, fired, task);
        }
    }

    /** The timer callback leaves its next duration in the task before it adds it again. */
    method SetDuration(task: TimerTask, durationMs: nat)
      requires Valid()
      modifies task`nextFireDurationMs
      ensures Valid() && task.nextFireDurationMs == durationMs
    {
      task.nextFireDurationMs := durationMs;
    }

    /** The loop of the tick thread, interleaved with the calls of other threads in any legal order.
        The log has what was handed out, each entry with the number of the tick. */
    method TickFunc(turns: seq<Turn<TimerTask>>) returns (log: seq<Firing>)
      requires Valid() && LegalRun(table, turns)
      modifies this, workWheel, assistantWheel, set i | 0 <= i < |turns| && !turns[i].Loop? :: turns[i].task
      ensures Valid() && table == After(old(table), turns)
      ensures forall task | old(allocated(task)) :: FiringsOf(log, task) == Firings(old(table), turns, task)
    {
      log := [];
      var i := 0;
      while i < |turns|
        invariant 0 <= i <= |turns|
        invariant Valid() && LegalRun(table, turns[i..])
        invariant After(table, turns[i..]) == After(old(table), turns)
        invariant forall task | old(allocated(task)) ::
          FiringsOf(log, task) + Firings(table, turns[i..], task) == Firings(old(table), turns, task)
      {
        ghost var rest, before := turns[i..], table;
        assert rest[0] == turns[i] && rest[1..] == turns[i + 1..];
        var entries := TakeTurn(turns[i]);
        forall task | old(allocated(task))
          ensures FiringsOf(log + entries, task) + Firings(table, turns[i + 1..], task)
               == Firings(old(table), turns, task)
        {
          LogGrows(before, rest, log, entries, task);
        }
        log := log + entries;
        i := i + 1;
      }
    }

    /** The wheels keep the timer's promise: a task added now and kept alive is handed out once, at its
        due tick, whatever else is added, dropped and ticked meanwhile; and that tick is the one asked
        for exactly when OnTime holds here. */
    method AddThenRun(task: TimerTask, durationMs: nat, turns: seq<Turn<TimerTask>>) returns (log: seq<Firing>)
      requires Valid() && LegalRun(table, [Add(task, durationMs)] + turns) && !Mentions(turns, task)
      modifies this, workWheel, assistantWheel, task, set i | 0 <= i < |turns| && !turns[i].Loop? :: turns[i].task
      ensures Valid() && table == After(old(table), [Add(task, durationMs)] + turns)
      ensures var tab, k := old(table), Ticks(durationMs);
        var due := DuePosition(tab.pos, tab.phase, k);
        && FiringsOf(log, task) == (if Passed(table, due) then [due] else [])
        && (due == tab.pos + k <==> OnTime(tab.pos, tab.phase, k))
    {
      AddedTaskFires(table, task, durationMs, turns);
      log := TickFunc([Add(task, durationMs)] + turns);
    }
  }

  function Entries(tick: nat, fired: seq<TimerTask>): seq<Firing> {
    seq(|fired|, i requires 0 <= i < |fired| => Firing(tick, fired[i]))
  }

  lemma {:induction false} EntriesFirings(tick: nat, fired: seq<TimerTask>, task: TimerTask)
    requires Distinct(fired)
    ensures FiringsOf(Entries(tick, fired), task) == if task in fired then [tick] else []
  {
    if fired != [] {
      assert Entries(tick, fired)[1..] == Entries(tick, fired[1..]);
      assert Distinct(fired[1..]) && fired == [fired[0]] + fired[1..];
      EntriesFirings(tick, fired[1..], task);
    }
  }

  lemma LogGrows(before: Table<TimerTask>, rest: seq<Turn<TimerTask>>, log: seq<Firing>, entries: seq<Firing>,
                 task: TimerTask)
    requires rest != [] && LegalRun(before, rest) && FiringsOf(entries, task) == Handed(before, rest[0], task)
    ensures FiringsOf(log + entries, task) + Firings(Step(before, rest[0]), rest[1..], task)
         == FiringsOf(log, task) + Firings(before, rest, task)
  {
    FiringsConcat(log, entries, task);
    var tail := Firings(Step(before, rest[0]), rest[1..], task);
    Reassociate(FiringsOf(log, task), FiringsOf(entries, task), tail);
  }

  lemma {:induction false} FiringsConcat(a: seq<Firing>, b: seq<Firing>, task: TimerTask)
    ensures FiringsOf(a + b, task) == FiringsOf(a, task) + FiringsOf(b, task)
  {
    if a == [] {
      assert a + b == b;
    } else {
      assert (a + b)[0] == a[0] && (a + b)[1..] == a[1..] + b;
      FiringsConcat(a[1..], b, task);
      Reassociate(if a[0].task == task then [a[0].tick] else [], FiringsOf(a[1..], task), FiringsOf(b, task));
    }
  }

  lemma HandMoves(pos: nat)
    ensures (pos % WORK_WHEEL_SIZE + 1) % WORK_WHEEL_SIZE == (pos + 1) % WORK_WHEEL_SIZE
    ensures var phase := if (pos + 1) % WORK_WHEEL_SIZE == 0 then WorkReset else AtTick;
      Revolution(pos + 1, phase) == Revolution(pos, Ticked)
  {
  }

  lemma AdvanceKeepsRange<Task>(tab: Table<Task>, place: map<Task, Place>)
    requires Sound(tab) && Ranged(tab, place) && (tab.phase == Ticked || tab.phase == WorkReset)
    ensures Ranged(LoopStep(tab), place)
  {
    var tab' := LoopStep(tab);
    forall t | t in tab.due && t in place ensures InRange(tab'.pos, tab'.phase, tab.due[t], place[t]) {
      assert InRange(tab.pos, tab.phase, tab.due[t], place[t]);
    }
  }

  /** A task in the slot being cascaded is due within this revolution. */
  lemma CascadedIsNear(pos: nat, d: nat)
    requires PhaseOk(pos, CascadePending) && InRange(pos, CascadePending, d, InAssistant)
    requires d / WORK_WHEEL_SIZE % ASSISTANT_WHEEL_SIZE == Revolution(pos, CascadePending) % ASSISTANT_WHEEL_SIZE
    ensures InRange(pos, CascadePending, d, InWork)
  {
    var ahead := d / WORK_WHEEL_SIZE - Revolution(pos, CascadePending);
    assert ahead % ASSISTANT_WHEEL_SIZE == 0;
  }

  lemma CascadeKeepsRange<Task>(tab: Table<Task>, place: map<Task, Place>, slot: nat)
    requires Sound(tab) && Ranged(tab, place) && tab.phase == CascadePending && place.Keys == tab.due.Keys
    requires slot == Revolution(tab.pos, tab.phase) % ASSISTANT_WHEEL_SIZE
    requires AssistantContent(tab.due, place, slot) == {}
    ensures Ranged(LoopStep(tab), place)
  {
    forall t | t in tab.due && t in place ensures InRange(tab.pos, AtTick, tab.due[t], place[t]) {
      assert InRange(tab.pos, tab.phase, tab.due[t], place[t]);
      if place[t] == InAssistant {
        assert t !in AssistantContent(tab.due, place, slot);
      }
    }
  }

  ghost predicate SameMembers<Task>(s: seq<Task>, members: set<Task>) {
    (forall t :: t in s ==> t in members) && (forall t :: t in members ==> t in s)
  }

  /** A task that is due now and not taken yet joins those taken. */
  lemma TakenNow<Task>(start: Table<Task>, tab: Table<Task>, taken: set<Task>, t: Task)
    requires taken <= DueNow(start) && tab == start.(due := start.due - taken) && t in DueNow(tab)
    ensures t !in taken && taken + {t} <= DueNow(start)
    ensures tab.(due := tab.due - {t}) == start.(due := start.due - (taken + {t}))
  {
    assert tab.due - {t} == start.due - (taken + {t});
  }

  lemma AppendMember<Task>(s: seq<Task>, members: set<Task>, t: Task)
    requires Distinct(s) && SameMembers(s, members) && t !in members
    ensures Distinct(s + [t]) && SameMembers(s + [t], members + {t})
  {
  }

  lemma NothingDueInAssistant<Task>(tab: Table<Task>, place: map<Task, Place>, slot: nat)
    requires Sound(tab) && tab.phase == AtTick && slot == tab.pos % WORK_WHEEL_SIZE
    requires Ranged(tab, place) && place.Keys == tab.due.Keys && WorkContent(tab.due, place, slot) == {}
    ensures forall t :: t in tab.due ==> tab.due[t] > tab.pos
    ensures Ranged(tab.(phase := Ticked), place)
  {
    forall t | t in tab.due ensures tab.due[t] > tab.pos && InRange(tab.pos, Ticked, tab.due[t], place[t]) {
      assert InRange(tab.pos, AtTick, tab.due[t], place[t]);
      if place[t] == InWork {
        assert t !in WorkContent(tab.due, place, slot);
        assert tab.due[t] % WORK_WHEEL_SIZE != slot;
      }
    }
  }

  /** AddTask files a task in the work wheel when its slot comes up within a lap. */
  predicate Near(pos: nat, k: nat) {
    var cur := pos % WORK_WHEEL_SIZE;
    cur + k < WORK_WHEEL_SIZE ||
    ((cur + k) / WORK_WHEEL_SIZE == 1 && (cur + k) % WORK_WHEEL_SIZE < cur)
  }

  lemma NearIsInReach(pos: nat, phase: Phase, k: nat)
    requires PhaseOk(pos, phase) && Near(pos, k)
    ensures var d := DuePosition(pos, phase, k);
      d % WORK_WHEEL_SIZE == (pos % WORK_WHEEL_SIZE + k) % WORK_WHEEL_SIZE && InRange(pos, phase, d, InWork)
  {
  }

  /** The slot the code computes for any other task is the slot of its due position, and within reach. */
  lemma FarIsInReach(pos: nat, phase: Phase, k: nat)
    requires PhaseOk(pos, phase) && !Near(pos, k)
    ensures var index, d := pos % WORK_WHEEL_SIZE + k, DuePosition(pos, phase, k);
      && d % WORK_WHEEL_SIZE == index % WORK_WHEEL_SIZE
      && d / WORK_WHEEL_SIZE % ASSISTANT_WHEEL_SIZE
         == (Revolution(pos, phase) % ASSISTANT_WHEEL_SIZE + index / WORK_WHEEL_SIZE) % ASSISTANT_WHEEL_SIZE
      && InRange(pos, phase, d, InAssistant)
  {
    var index, d, rev := pos % WORK_WHEEL_SIZE + k, DuePosition(pos, phase, k), Revolution(pos, phase);
    var ahead := index / WORK_WHEEL_SIZE;
    assert d == (rev + Wait(phase, ahead)) * WORK_WHEEL_SIZE + index % WORK_WHEEL_SIZE;
    assert d / WORK_WHEEL_SIZE == rev + Wait(phase, ahead);
    WaitReachesSlot(rev, phase, ahead);
  }

  lemma WaitReachesSlot(rev: int, phase: Phase, ahead: nat)
    requires ahead >= 1
    ensures (rev + Wait(phase, ahead)) % ASSISTANT_WHEEL_SIZE
         == (rev % ASSISTANT_WHEEL_SIZE + ahead) % ASSISTANT_WHEEL_SIZE
  {
    var laps := rev / ASSISTANT_WHEEL_SIZE -
      if phase == CascadePending then ahead / ASSISTANT_WHEEL_SIZE else (ahead - 1) / ASSISTANT_WHEEL_SIZE;
    assert rev + Wait(phase, ahead) == rev % ASSISTANT_WHEEL_SIZE + ahead + laps * ASSISTANT_WHEEL_SIZE;
    AddLaps(rev % ASSISTANT_WHEEL_SIZE + ahead, laps);
  }

  lemma AddLaps(x: int, laps: int)
    ensures (x + laps * ASSISTANT_WHEEL_SIZE) % ASSISTANT_WHEEL_SIZE == x % ASSISTANT_WHEEL_SIZE
  {
  }
}
