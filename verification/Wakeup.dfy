/** Waiting for data: a routine of `cyber/croutine/routine_factory.h`, the processors that resume it
    (`cyber/croutine/croutine.h`), and the dispatchers that fill its buffer and notify it
    (`cyber/scheduler/policy/scheduler_classic.cc`). One step is one access to the routine's state, its
    update flag, its lock or its buffer. */
module Wakeup {
  import opened DataPath

  datatype RoutineState = READY | FINISHED | SLEEP | IO_WAIT | DATA_WAIT

  /** Where the routine is in its loop. It is suspended at the top unless a processor runs it. */
  datatype RoutinePc = Top | BeforeFetch | Handling

  /** A processor: Acquire, the flag and the state in UpdateState, the run, Release. */
  datatype Processor = Away | Acquired | FlagTaken | Updated | Running | Releasing

  /** A dispatcher: it has filled position p and is about to look at the state, or to set the flag. */
  datatype Dispatcher = Idle | Filled(p: nat) | SawWaiting(p: nat)

  /** `flagClear` is the cleared `updated_` flag, that is a pending update. */
  datatype State = State(
    state: RoutineState, flagClear: bool, locked: bool, pc: RoutinePc,
    filled: nat, next: nat, size: nat,
    processors: seq<Processor>, dispatchers: seq<Dispatcher>)

  datatype Actor = Proc(i: nat) | Disp(i: nat)

  function Init(size: nat, processorCount: nat, dispatcherCount: nat): State {
    State(READY, false, false, Top, 0, 0, size,
          seq(processorCount, _ => Away), seq(dispatcherCount, _ => Idle))
  }

  function SetProc(s: State, i: nat, p: Processor): State
    requires i < |s.processors|
  {
    s.(processors := s.processors[i := p])
  }

  function SetDisp(s: State, i: nat, d: Dispatcher): State
    requires i < |s.dispatchers|
  {
    s.(dispatchers := s.dispatchers[i := d])
  }

  /** One step of the routine's loop, on the processor that runs it. */
  function RoutineStep(s: State, i: nat): State
    requires i < |s.processors|
  {
    match s.pc
    case Top => s.(state := DATA_WAIT, pc := BeforeFetch)
    case BeforeFetch =>
      (match FetchAt(s.next, s.filled, s.size)
       case Deliver(p) => s.(next := p + 1, pc := Handling)
       case NothingNew => SetProc(s, i, Releasing).(pc := Top))
    case Handling => SetProc(s, i, Releasing).(state := READY, pc := Top)
  }

  function ProcessorStep(s: State, i: nat): State
    requires i < |s.processors|
  {
    match s.processors[i]
    case Away => if s.locked then s else SetProc(s, i, Acquired).(locked := true)
    case Acquired => SetProc(s, i, if s.flagClear then FlagTaken else Updated).(flagClear := false)
    case FlagTaken =>
      SetProc(s, i, Updated).(state := if s.state == DATA_WAIT || s.state == IO_WAIT then READY else s.state)
    case Updated => SetProc(s, i, if s.state == READY then Running else Releasing)
    case Running => RoutineStep(s, i)
    case Releasing => SetProc(s, i, Away).(locked := false)
  }

  function DispatcherStep(s: State, i: nat): State
    requires i < |s.dispatchers|
  {
    match s.dispatchers[i]
    case Idle => SetDisp(s, i, Filled(s.filled + 1)).(filled := s.filled + 1)
    case Filled(p) =>
      if s.state == DATA_WAIT || s.state == IO_WAIT then SetDisp(s, i, SawWaiting(p)) else SetDisp(s, i, Idle)
    case SawWaiting(_) => SetDisp(s, i, Idle).(flagClear := true)
  }

  function Step(s: State, a: Actor): State {
    match a
    case Proc(i) => if i < |s.processors| then ProcessorStep(s, i) else s
    case Disp(i) => if i < |s.dispatchers| then DispatcherStep(s, i) else s
  }

  function Execute(s: State, schedule: seq<Actor>): State
    decreases schedule
  {
    if schedule == [] then s else Execute(Step(s, schedule[0]), schedule[1..])
  }

  /** The message at position p has been filled and not been fetched or passed over. */
  predicate Unread(s: State, p: nat) { 1 <= p <= s.filled && s.next <= p }

  /** Somebody has filled position p and has not finished notifying. */
  ghost predicate Notifying(s: State, p: nat) {
    exists i :: 0 <= i < |s.dispatchers| && s.dispatchers[i] != Idle && s.dispatchers[i].p == p
  }

  /** The routine has found nothing to fetch and waits for data. */
  predicate Suspended(s: State) { s.pc == Top && s.state == DATA_WAIT }

  /** An update is pending: the flag, or a processor that has just taken it and will make the routine ready. */
  ghost predicate WakeupPending(s: State) {
    s.flagClear || exists i :: 0 <= i < |s.processors| && s.processors[i] == FlagTaken
  }

  ghost predicate Inv(s: State) {
    // at most one processor is past Acquire, and only while the lock is held
    && (forall i :: 0 <= i < |s.processors| && s.processors[i] != Away ==> s.locked)
    && (forall i, j :: 0 <= i < j < |s.processors| ==> s.processors[i] == Away || s.processors[j] == Away)
    && (s.pc != Top ==> exists i :: 0 <= i < |s.processors| && s.processors[i] == Running)
    && (forall i :: 0 <= i < |s.processors| && s.processors[i] == Running && s.pc == Top ==> s.state == READY)
    && s.next <= s.filled + 1
    && (s.state == READY || s.state == DATA_WAIT)
    && (Suspended(s) ==> forall p :: Unread(s, p) ==> Notifying(s, p) || WakeupPending(s))
  }

  /** No lost wakeup: a message whose dispatch and notification are complete, and that a suspended
      routine has not read, has left an update pending. */
  ghost predicate NoLostWakeup(s: State) {
    Suspended(s) ==> forall p :: Unread(s, p) && !Notifying(s, p) ==> WakeupPending(s)
  }

  lemma StillNotifying(s: State, r: State, p: nat, i: nat)
    requires Notifying(s, p) && |r.dispatchers| == |s.dispatchers|
    requires forall j :: 0 <= j < |s.dispatchers| && j != i ==> r.dispatchers[j] == s.dispatchers[j]
    requires i < |s.dispatchers| && s.dispatchers[i] != Idle && s.dispatchers[i].p == p ==>
      r.dispatchers[i] != Idle && r.dispatchers[i].p == p
    ensures Notifying(r, p)
  {
    var j :| 0 <= j < |s.dispatchers| && s.dispatchers[j] != Idle && s.dispatchers[j].p == p;
    assert r.dispatchers[j] != Idle && r.dispatchers[j].p == p;
  }

  lemma DispatcherKeepsInv(s: State, i: nat)
    requires Inv(s) && i < |s.dispatchers|
    ensures Inv(DispatcherStep(s, i))
  {
    var r := DispatcherStep(s, i);
    if Suspended(r) {
      forall p | Unread(r, p) ensures Notifying(r, p) || WakeupPending(r) {
        if s.dispatchers[i] == Idle && p == r.filled {
          assert r.dispatchers[i] == Filled(p);
        } else if Notifying(s, p) {
          if !r.flagClear {
            StillNotifying(s, r, p, i);
          }
        } else if !s.flagClear {
          var k :| 0 <= k < |s.processors| && s.processors[k] == FlagTaken;
          assert r.processors[k] == FlagTaken;
        }
      }
    }
  }

  lemma ProcessorKeepsRunner(s: State, i: nat)
    requires Inv(s) && i < |s.processors|
    ensures var r := ProcessorStep(s, i);
      r.pc != Top ==> exists k :: 0 <= k < |r.processors| && r.processors[k] == Running
  {
    var r := ProcessorStep(s, i);
    if r.pc != Top && s.pc != Top {
      var k :| 0 <= k < |s.processors| && s.processors[k] == Running;
      assert r.processors[k] == Running;
    } else if r.pc != Top {
      assert r.processors[i] == Running;
    }
  }

  lemma ProcessorKeepsWakeup(s: State, i: nat, p: nat)
    requires Inv(s) && i < |s.processors| && s.processors[i] != Running
    requires Suspended(ProcessorStep(s, i)) && Unread(s, p)
    ensures Notifying(ProcessorStep(s, i), p) || WakeupPending(ProcessorStep(s, i))
  {
    var r := ProcessorStep(s, i);
    if Notifying(s, p) {
      StillNotifying(s, r, p, |s.dispatchers|);
    } else if s.flagClear && s.processors[i] == Acquired {
      assert r.processors[i] == FlagTaken;
    } else if !s.flagClear {
      var k :| 0 <= k < |s.processors| && s.processors[k] == FlagTaken;
      assert r.processors[k] == FlagTaken;
    }
  }

  lemma ProcessorKeepsInv(s: State, i: nat)
    requires Inv(s) && i < |s.processors|
    ensures Inv(ProcessorStep(s, i))
  {
    var r := ProcessorStep(s, i);
    ProcessorKeepsRunner(s, i);
    if Suspended(r) && s.processors[i] != Running {
      forall p | Unread(r, p) ensures Notifying(r, p) || WakeupPending(r) {
        ProcessorKeepsWakeup(s, i, p);
      }
    }
  }

  lemma {:induction false} ExecuteKeepsInv(s: State, schedule: seq<Actor>)
    requires Inv(s)
    ensures Inv(Execute(s, schedule))
    decreases schedule
  {
    if schedule != [] {
      match schedule[0] {
        case Proc(i) => if i < |s.processors| { ProcessorKeepsInv(s, i); }
        case Disp(i) => if i < |s.dispatchers| { DispatcherKeepsInv(s, i); }
      }
      ExecuteKeepsInv(Step(s, schedule[0]), schedule[1..]);
    }
  }

  /** Over every run of any number of processors and dispatchers, no wakeup is lost. */
  lemma RunsLoseNoWakeup(size: nat, processorCount: nat, dispatcherCount: nat, schedule: seq<Actor>)
    ensures NoLostWakeup(Execute(Init(size, processorCount, dispatcherCount), schedule))
  {
    ExecuteKeepsInv(Init(size, processorCount, dispatcherCount), schedule);
  }

  lemma ThenExecute(s: State, a: Actor, n: nat)
    ensures Execute(s, seq(n + 1, _ => a)) == Execute(Step(s, a), seq(n, _ => a))
  {
    assert seq(n + 1, _ => a)[1..] == seq(n, _ => a);
  }

  /** How many steps a processor takes from where it is to the delivery of a pending update. */
  function StepsToDelivery(p: Processor): nat {
    match p
    case Away => 6
    case Acquired => 5
    case FlagTaken => 4
    case Updated => 8  // it saw the routine not ready: it releases it and comes again
    case Releasing => 7
    case Running => 0
  }

  /** A pending update is enough, whether the flag is still there or has been taken: the processor that
      has the routine, or any one while it is free, makes it ready and runs it into TryFetch, which then
      has something to deliver. */
  lemma PendingUpdateResumes(s: State, i: nat, p: nat)
    requires Inv(s) && Suspended(s) && Unread(s, p) && WakeupPending(s)
    requires i < |s.processors| && (s.processors[i] != Away || !s.locked)
    ensures s.processors[i] != Running
    ensures var r := Execute(s, seq(StepsToDelivery(s.processors[i]), _ => Proc(i)));
      r.pc == Handling && r.next > s.next
    decreases StepsToDelivery(s.processors[i])
  {
    var n, r := StepsToDelivery(s.processors[i]), ProcessorStep(s, i);
    if s.processors[i] == FlagTaken {
      TakenUpdateDelivers(s, i, p);
    } else {
      assert s.flagClear;
      ThenExecute(s, Proc(i), n - 1);
      ProcessorKeepsInv(s, i);
      if s.processors[i] == Acquired {
        assert r.processors[i] == FlagTaken;
      }
      PendingUpdateResumes(r, i, p);
    }
  }

  lemma UpdatedRoutineDelivers(s: State, i: nat, p: nat)
    requires s.next <= s.filled + 1 && s.pc == Top && s.state == READY && Unread(s, p)
    requires i < |s.processors| && s.processors[i] == Updated
    ensures var r := Execute(s, seq(3, _ => Proc(i))); r.pc == Handling && r.next > s.next
  {
    var a := Proc(i);
    var s1 := Step(s, a);
    var s2 := Step(s1, a);
    assert s2.pc == BeforeFetch && s2.next == s.next;
    var s3 := Step(s2, a);
    assert s3.pc == Handling && s3.next > s.next;
    ThenExecute(s, a, 2);
    ThenExecute(s1, a, 1);
    ThenExecute(s2, a, 0);
  }

  lemma TakenUpdateDelivers(s: State, i: nat, p: nat)
    requires Inv(s) && Suspended(s) && Unread(s, p)
    requires i < |s.processors| && s.processors[i] == FlagTaken
    ensures var r := Execute(s, seq(4, _ => Proc(i))); r.pc == Handling && r.next > s.next
  {
    var s1 := Step(s, Proc(i));
    assert s1.state == READY && s1.processors[i] == Updated;
    UpdatedRoutineDelivers(s1, i, p);
    ThenExecute(s, Proc(i), 3);
  }

  /** No step passes over an unread message, except that the first delivery and one after an overflow go
      to the newest message. */
  lemma NothingIsPassedOver(s: State, a: Actor, p: nat)
    requires Unread(s, p)
    ensures var r := Step(s, a);
      Unread(r, p) || r.next == p + 1 || (r.next == s.filled + 1 && (s.next == 0 || s.next + s.size <= s.filled))
  {
  }

  /** After a message has been handled, two steps of its processor leave the routine ready and free. */
  lemma HandledRoutineIsFree(s: State, i: nat)
    requires Inv(s) && s.pc == Handling && i < |s.processors| && s.processors[i] == Running
    ensures var r := Execute(s, seq(2, _ => Proc(i)));
      && r.state == READY && r.pc == Top && !r.locked && r.next == s.next
      && i < |r.processors| && r.processors[i] == Away
  {
    ThenExecute(s, Proc(i), 1);
    ThenExecute(Step(s, Proc(i)), Proc(i), 0);
  }

  /** A ready routine that is free is run into the delivery of an unread message by any processor. */
  lemma ReadyRoutineDelivers(s: State, i: nat, p: nat)
    requires Inv(s) && s.pc == Top && s.state == READY && !s.locked && Unread(s, p)
    requires i < |s.processors| && s.processors[i] == Away
    ensures var r := Execute(s, seq(if s.flagClear then 6 else 5, _ => Proc(i))); r.pc == Handling && r.next > s.next
  {
    var a := Proc(i);
    var s1 := Step(s, a);
    var s2 := Step(s1, a);
    var s3 := if s.flagClear then Step(s2, a) else s2;
    assert s3.processors[i] == Updated && s3.state == READY && s3.pc == Top && s3.next == s.next;
    UpdatedRoutineDelivers(s3, i, p);
    ThenExecute(s, a, if s.flagClear then 5 else 4);
    ThenExecute(s1, a, if s.flagClear then 4 else 3);
    if s.flagClear {
      ThenExecute(s2, a, 3);
    }
  }

  /** A routine that runs and finds nothing unread is suspended and free three steps on. */
  lemma NothingUnreadSuspends(s: State, i: nat)
    requires Inv(s) && s.pc == Top && i < |s.processors| && s.processors[i] == Running
    requires forall p :: !Unread(s, p)
    ensures var r := Execute(s, seq(3, _ => Proc(i)));
      && Suspended(r) && !r.locked && r.next == s.next
      && i < |r.processors| && r.processors[i] == Away
  {
    var a := Proc(i);
    assert s.filled > 0 ==> !Unread(s, s.filled);
    ThenExecute(s, a, 2);
    ThenExecute(Step(s, a), a, 1);
    ThenExecute(Step(Step(s, a), a), a, 0);
  }

  /** A dispatch to a suspended routine, run alone: the message is there to be read, and an update is
      pending. */
  lemma DispatchWakes(s: State, i: nat)
    requires Inv(s) && Suspended(s) && i < |s.dispatchers| && s.dispatchers[i] == Idle
    ensures var r := Execute(s, seq(3, _ => Disp(i)));
      && r.filled == s.filled + 1 && Unread(r, r.filled) && Suspended(r) && r.flagClear
      && i < |r.dispatchers| && r.dispatchers[i] == Idle && r.processors == s.processors && r.next == s.next
  {
    var a := Disp(i);
    ThenExecute(s, a, 2);
    ThenExecute(Step(s, a), a, 1);
    ThenExecute(Step(Step(s, a), a), a, 0);
  }

  /** A dispatch to a routine that is not waiting leaves the flag alone: it will look for itself. */
  lemma DispatchToReadyIsQuiet(s: State, i: nat)
    requires s.state == READY && i < |s.dispatchers| && s.dispatchers[i] == Idle
    ensures var r := Execute(s, seq(2, _ => Disp(i)));
      r.filled == s.filled + 1 && r.flagClear == s.flagClear && r.dispatchers == s.dispatchers
  {
    var a := Disp(i);
    var s1 := Step(s, a);
    assert s1.dispatchers == s.dispatchers[i := Filled(s.filled + 1)] && s1.state == READY;
    var s2 := Step(s1, a);
    assert s2.dispatchers == s.dispatchers && s2.filled == s.filled + 1;
    ThenExecute(s, a, 1);
    ThenExecute(s1, a, 0);
  }
}
