/** The reader-writer spin lock of `cyber/base/atomic_rw_lock.h`, as a step system: one step is one
    atomic load, add or compare-and-swap of one thread. The yields of the spin loops are left out. */
module RwLock {
  import opened Helpers

  const RW_LOCK_FREE := 0
  const WRITE_EXCLUSIVE := -1

  datatype Local =
    | Idle
    | ReadLoad
    | ReadCheck(lockNum: int)
    | ReadCas(lockNum: int)
    | Reading
    | WriteAnnounce
    | WriteCas
    | WriteWithdraw
    | Writing

  datatype State = State(lockNum: int, waiting: int, writeFirst: bool, threads: seq<Local>)

  datatype Choice = CallRead | CallWrite | Unlock | Continue(spurious: bool)

  function Init(writeFirst: bool, threadCount: nat): State {
    State(RW_LOCK_FREE, 0, writeFirst, seq(threadCount, _ => Idle))
  }

  function Goto(s: State, t: nat, l: Local): State
    requires t < |s.threads|
  {
    s.(threads := s.threads[t := l])
  }

  function Step(s: State, t: nat, c: Choice): State
    requires t < |s.threads|
  {
    match (s.threads[t], c)
    case (Idle, CallRead) => Goto(s, t, ReadLoad)
    case (Idle, CallWrite) => Goto(s, t, WriteAnnounce)
    case (ReadLoad, Continue(_)) => Goto(s, t, ReadCheck(s.lockNum))
    case (ReadCheck(lockNum), Continue(_)) =>
      // without write-first mode the waiting count is not looked at
      if lockNum < RW_LOCK_FREE || (s.writeFirst && s.waiting > 0) then Goto(s, t, ReadLoad)
      else Goto(s, t, ReadCas(lockNum))
    case (ReadCas(lockNum), Continue(spurious)) =>
      if s.lockNum == lockNum && !spurious then Goto(s, t, Reading).(lockNum := lockNum + 1)
      else Goto(s, t, ReadCheck(s.lockNum))
    case (Reading, Unlock) => Goto(s, t, Idle).(lockNum := s.lockNum - 1)
    case (WriteAnnounce, Continue(_)) => Goto(s, t, WriteCas).(waiting := s.waiting + 1)
    case (WriteCas, Continue(spurious)) =>
      if s.lockNum == RW_LOCK_FREE && !spurious then Goto(s, t, WriteWithdraw).(lockNum := WRITE_EXCLUSIVE)
      else s
    case (WriteWithdraw, Continue(_)) => Goto(s, t, Writing).(waiting := s.waiting - 1)
    case (Writing, Unlock) => Goto(s, t, Idle).(lockNum := s.lockNum + 1)
    case _ => s
  }

  /** Places a thread can be counted at. */
  datatype Role = InsideRead | InsideWrite | Announced | PassedCheck

  predicate Plays(l: Local, r: Role) {
    match r
    case InsideRead => l.Reading?
    case InsideWrite => l.WriteWithdraw? || l.Writing?
    case Announced => l.WriteCas? || l.WriteWithdraw?
    case PassedCheck => l.ReadCas?
  }

  function Count(threads: seq<Local>, r: Role): nat {
    if threads == [] then 0 else (if Plays(threads[0], r) then 1 else 0) + Count(threads[1..], r)
  }

  lemma {:induction false} CountUpdate(threads: seq<Local>, t: nat, l: Local, r: Role)
    requires t < |threads|
    ensures Count(threads[t := l], r) + (if Plays(threads[t], r) then 1 else 0)
         == Count(threads, r) + (if Plays(l, r) then 1 else 0)
  {
    if t == 0 {
      assert threads[t := l][1..] == threads[1..];
    } else {
      CountUpdate(threads[1..], t - 1, l, r);
      assert threads[t := l][1..] == threads[1..][t - 1 := l];
    }
  }

  lemma {:induction false} CountAtLeast(threads: seq<Local>, t: nat, r: Role)
    requires t < |threads| && Plays(threads[t], r)
    ensures Count(threads, r) >= 1
  {
    if t > 0 {
      CountAtLeast(threads[1..], t - 1, r);
    }
  }

  lemma {:induction false} CountTwo(threads: seq<Local>, t: nat, u: nat, r: Role)
    requires t < u < |threads| && Plays(threads[t], r) && Plays(threads[u], r)
    ensures Count(threads, r) >= 2
  {
    if t == 0 {
      CountAtLeast(threads[1..], u - 1, r);
    } else {
      CountTwo(threads[1..], t - 1, u - 1, r);
    }
  }

  lemma {:induction false} CountNone(threads: seq<Local>, r: Role)
    requires forall t :: 0 <= t < |threads| ==> threads[t] == Idle
    ensures Count(threads, r) == 0
  {
    if threads != [] {
      CountNone(threads[1..], r);
    }
  }

  /** The lock word counts the readers inside, or is -1 for exactly one writer inside and no reader;
      the waiting count is the number of writers between announcement and withdrawal. */
  ghost predicate Inv(s: State) {
    var readers, writers := Count(s.threads, InsideRead), Count(s.threads, InsideWrite);
    && (writers == 0 || (writers == 1 && readers == 0))
    && s.lockNum == (if writers == 1 then WRITE_EXCLUSIVE else readers)
    && s.waiting == Count(s.threads, Announced)
    && (forall t :: 0 <= t < |s.threads| && s.threads[t].ReadCas? ==> s.threads[t].lockNum >= 0)
  }

  function Flag(l: Local, r: Role): nat { if Plays(l, r) then 1 else 0 }

  /** What one step of thread t does to the lock word and the waiting count: each moves with the roles
      that t takes on and gives up, a writer enters a free lock, and a reader one without a writer. */
  ghost predicate Moves(s: State, s': State, t: nat)
    requires t < |s.threads|
  {
    && |s'.threads| == |s.threads| && s'.threads == s.threads[t := s'.threads[t]]
    && s'.writeFirst == s.writeFirst
    && var l, l' := s.threads[t], s'.threads[t];
       && s'.lockNum == s.lockNum + Flag(l', InsideRead) - Flag(l, InsideRead)
                        - Flag(l', InsideWrite) + Flag(l, InsideWrite)
       && s'.waiting == s.waiting + Flag(l', Announced) - Flag(l, Announced)
       && (Plays(l', InsideWrite) && !Plays(l, InsideWrite) ==> s.lockNum == RW_LOCK_FREE && !Plays(l, InsideRead))
       && (Plays(l', InsideRead) && !Plays(l, InsideRead) ==> s.lockNum >= RW_LOCK_FREE && !Plays(l, InsideWrite))
       && (l'.ReadCas? ==> l'.lockNum >= RW_LOCK_FREE)
  }

  lemma StepMoves(s: State, t: nat, c: Choice)
    requires t < |s.threads| && (s.threads[t].ReadCas? ==> s.threads[t].lockNum >= RW_LOCK_FREE)
    ensures Moves(s, Step(s, t, c), t)
  {
  }

  lemma MoveCounts(s: State, s': State, t: nat, r: Role)
    requires t < |s.threads| && Moves(s, s', t)
    ensures Count(s'.threads, r) + Flag(s.threads[t], r) == Count(s.threads, r) + Flag(s'.threads[t], r)
  {
    CountUpdate(s.threads, t, s'.threads[t], r);
  }

  lemma MoveKeepsInv(s: State, s': State, t: nat)
    requires Inv(s) && t < |s.threads| && Moves(s, s', t)
    ensures Inv(s')
  {
    MoveCounts(s, s', t, InsideRead);
    MoveCounts(s, s', t, InsideWrite);
    MoveCounts(s, s', t, Announced);
    if Plays(s.threads[t], InsideRead) {
      CountAtLeast(s.threads, t, InsideRead);
    } else if Plays(s.threads[t], InsideWrite) {
      CountAtLeast(s.threads, t, InsideWrite);
    }
  }

  lemma StepKeepsInv(s: State, t: nat, c: Choice)
    requires Inv(s) && t < |s.threads|
    ensures Inv(Step(s, t, c))
  {
    StepMoves(s, t, c);
    MoveKeepsInv(s, Step(s, t, c), t);
  }

  /** A writer inside shares the lock with nobody. */
  lemma Exclusion(s: State, t: nat, u: nat)
    requires Inv(s) && t < |s.threads| && u < |s.threads| && t != u
    requires Plays(s.threads[t], InsideWrite)
    ensures !Plays(s.threads[u], InsideWrite) && !Plays(s.threads[u], InsideRead)
  {
    CountAtLeast(s.threads, t, InsideWrite);
    if Plays(s.threads[u], InsideWrite) {
      CountTwo(s.threads, if t < u then t else u, if t < u then u else t, InsideWrite);
    }
    if Plays(s.threads[u], InsideRead) {
      CountAtLeast(s.threads, u, InsideRead);
    }
  }

  /** What a thread has of the lock, or is on its way to. */
  datatype Holding = Nothing | WantsRead | HasRead | WantsWrite | HasWrite

  function HoldingOf(l: Local): Holding {
    match l
    case Idle => Nothing
    case ReadLoad => WantsRead
    case ReadCheck(_) => WantsRead
    case ReadCas(_) => WantsRead
    case Reading => HasRead
    case WriteAnnounce => WantsWrite
    case WriteCas => WantsWrite
    case WriteWithdraw => WantsWrite
    case Writing => HasWrite
  }

  /** A call starts what it asks for, an unlock ends what the thread has, and on its own a thread that
      wants the lock goes on wanting it or has it. Nothing else moves. */
  lemma CallsAreServed(s: State, t: nat, c: Choice)
    requires t < |s.threads|
    ensures var s' := Step(s, t, c);
      var h, h' := HoldingOf(s.threads[t]), HoldingOf(s'.threads[t]);
      && s'.threads == s.threads[t := s'.threads[t]] && s'.writeFirst == s.writeFirst
      && match (h, c)
         case (Nothing, CallRead) => h' == WantsRead && s' == s.(threads := s'.threads)
         case (Nothing, CallWrite) => h' == WantsWrite && s' == s.(threads := s'.threads)
         case (HasRead, Unlock) => h' == Nothing && s'.waiting == s.waiting && s'.lockNum == s.lockNum - 1
         case (HasWrite, Unlock) => h' == Nothing && s'.waiting == s.waiting && s'.lockNum == s.lockNum + 1
         case (WantsRead, Continue(_)) => h' == WantsRead || h' == HasRead
         case (WantsWrite, Continue(_)) => h' == WantsWrite || h' == HasWrite
         case _ => s' == s
  {
  }

  /** A writer that unlocks leaves the lock free; a reader does so when it is the last. */
  lemma UnlockFrees(s: State, t: nat)
    requires Inv(s) && t < |s.threads| && (s.threads[t] == Writing || s.threads[t] == Reading)
    ensures var s' := Step(s, t, Unlock);
      && (s.threads[t] == Writing ==> s'.lockNum == RW_LOCK_FREE)
      && (s.threads[t] == Reading ==> s'.lockNum == Count(s.threads, InsideRead) - 1)
  {
    CountAtLeast(s.threads, t, if s.threads[t] == Writing then InsideWrite else InsideRead);
  }

  /** A thread that comes for the lock now is not kept out. */
  predicate IsOpen(s: State, h: Holding) {
    match h
    case WantsRead => s.lockNum >= RW_LOCK_FREE && !(s.writeFirst && s.waiting > 0)
    case WantsWrite => s.lockNum == RW_LOCK_FREE
    case _ => false
  }

  /** How far a thread is from the lock if it runs alone. What a reader has loaded may be out of date. A
      writer that only has its announcement to withdraw has the lock already. */
  function Rank(s: State, l: Local): nat {
    match l
    case ReadLoad => 3
    case ReadCheck(lockNum) => if lockNum == s.lockNum then 2 else 4
    case ReadCas(lockNum) => if lockNum == s.lockNum then 1 else 3
    case WriteAnnounce => 3
    case WriteCas => 2
    case WriteWithdraw => 1
    case _ => 0
  }

  /** With the lock open, every step of a thread brings it closer; a swap that fails for no reason takes
      it back by one at most. */
  lemma StepLowersRank(s: State, t: nat, spurious: bool)
    requires Inv(s) && t < |s.threads|
    requires var l := s.threads[t]; l == WriteWithdraw || IsOpen(s, HoldingOf(l))
    ensures var s' := Step(s, t, Continue(spurious));
      var l, l' := s.threads[t], s'.threads[t];
      && Rank(s', l') <= (if spurious then Rank(s, l) + 1 else Rank(s, l) - 1)
      && (l' == Reading || l' == Writing || l' == WriteWithdraw || IsOpen(s', HoldingOf(l')))
  {
  }

  datatype Action = Action(tid: nat, choice: Choice)

  function Extend(s: State, a: Action): State {
    if a.tid < |s.threads| then Step(s, a.tid, a.choice) else s
  }

  function Execute(s: State, schedule: seq<Action>): State
    decreases schedule
  {
    if schedule == [] then s else Execute(Extend(s, schedule[0]), schedule[1..])
  }

  lemma {:induction false} ExecuteKeepsInv(s: State, schedule: seq<Action>)
    requires Inv(s)
    ensures Inv(Execute(s, schedule))
    decreases schedule
  {
    if schedule != [] {
      var a := schedule[0];
      if a.tid < |s.threads| {
        StepKeepsInv(s, a.tid, a.choice);
      }
      ExecuteKeepsInv(Extend(s, a), schedule[1..]);
    }
  }

  /** Over every run of any number of threads, in both modes: the two counters mean what they should,
      and a thread inside as a writer is inside alone. */
  lemma RunsExclude(writeFirst: bool, threadCount: nat, schedule: seq<Action>)
    ensures var s := Execute(Init(writeFirst, threadCount), schedule);
      && Inv(s)
      && forall t, u :: 0 <= t < |s.threads| && 0 <= u < |s.threads| && t != u && Plays(s.threads[t], InsideWrite) ==>
           !Plays(s.threads[u], InsideWrite) && !Plays(s.threads[u], InsideRead)
  {
    var start := Init(writeFirst, threadCount);
    CountNone(start.threads, InsideRead);
    CountNone(start.threads, InsideWrite);
    CountNone(start.threads, Announced);
    ExecuteKeepsInv(start, schedule);
    var s := Execute(start, schedule);
    forall t, u | 0 <= t < |s.threads| && 0 <= u < |s.threads| && t != u && Plays(s.threads[t], InsideWrite)
      ensures !Plays(s.threads[u], InsideWrite) && !Plays(s.threads[u], InsideRead)
    {
      Exclusion(s, t, u);
    }
  }

  /** Writer w has announced itself and does not get the lock anywhere along the schedule. */
  predicate KeepsWaiting(s: State, schedule: seq<Action>, w: nat)
    decreases schedule
  {
    && w < |s.threads| && s.threads[w].WriteCas?
    && (schedule == [] || KeepsWaiting(Extend(s, schedule[0]), schedule[1..], w))
  }

  /** How often thread t takes the read lock along the schedule. */
  function ReadsTaken(s: State, schedule: seq<Action>, t: nat): nat
    requires t < |s.threads|
    decreases schedule
  {
    if schedule == [] then 0
    else
      var s' := Extend(s, schedule[0]);
      (if s.threads[t].ReadCas? && s'.threads[t].Reading? then 1 else 0) + ReadsTaken(s', schedule[1..], t)
  }

  lemma CheckHoldsBack(s: State, a: Action, t: nat)
    requires s.writeFirst && s.waiting > 0 && t < |s.threads|
    ensures var s' := Extend(s, a);
      && s'.writeFirst && |s'.threads| == |s.threads|
      && (s'.threads[t].ReadCas? ==> s.threads[t].ReadCas?)
  {
  }

  /** While a writer waits in write-first mode, no thread passes the waiting check, so a step that takes
      the read lock uses up a pass from before. */
  lemma NoNewPass(s: State, a: Action, w: nat, t: nat)
    requires Inv(s) && s.writeFirst && t < |s.threads|
    requires w < |s.threads| && s.threads[w].WriteCas?
    ensures var s' := Extend(s, a);
      && Inv(s') && s'.writeFirst && |s'.threads| == |s.threads|
      && (s'.threads[t].ReadCas? ==> s.threads[t].ReadCas?)
  {
    CountAtLeast(s.threads, w, Announced);
    CheckHoldsBack(s, a, t);
    if a.tid < |s.threads| {
      StepKeepsInv(s, a.tid, a.choice);
    }
  }

  /** Bounded overtaking: while a writer waits in write-first mode, every other thread takes the read
      lock at most once, and only if it had passed the waiting check before. */
  lemma {:induction false} BoundedOvertaking(s: State, schedule: seq<Action>, w: nat, t: nat)
    requires Inv(s) && s.writeFirst && t < |s.threads|
    requires KeepsWaiting(s, schedule, w)
    ensures ReadsTaken(s, schedule, t) <= if s.threads[t].ReadCas? then 1 else 0
    decreases schedule
  {
    if schedule != [] {
      NoNewPass(s, schedule[0], w, t);
      BoundedOvertaking(Extend(s, schedule[0]), schedule[1..], w, t);
    }
  }

  /** All reads that overtake the waiting writer. */
  function AllReadsTaken(s: State, schedule: seq<Action>): nat
    decreases schedule
  {
    if schedule == [] then 0
    else
      var a, s' := schedule[0], Extend(s, schedule[0]);
      (if a.tid < |s.threads| && s.threads[a.tid].ReadCas? && s'.threads[a.tid].Reading? then 1 else 0)
      + AllReadsTaken(s', schedule[1..])
  }

  /** Together the threads overtake a waiting writer at most once for each thread that had passed the
      waiting check before, however long the writer waits. */
  lemma {:induction false} TotalOvertaking(s: State, schedule: seq<Action>, w: nat)
    requires Inv(s) && s.writeFirst && KeepsWaiting(s, schedule, w)
    ensures AllReadsTaken(s, schedule) + Count(Execute(s, schedule).threads, PassedCheck)
         <= Count(s.threads, PassedCheck)
    decreases schedule
  {
    if schedule != [] {
      var a := schedule[0];
      if a.tid < |s.threads| {
        NoNewPass(s, a, w, a.tid);
        StepMoves(s, a.tid, a.choice);
        MoveCounts(s, Extend(s, a), a.tid, PassedCheck);
      } else {
        NoNewPass(s, a, w, w);
      }
      TotalOvertaking(Extend(s, a), schedule[1..], w);
    }
  }

  /** A schedule that keeps the writer waiting, lets thread 1 read n times and ends in `end`. */
  predicate LetsRead(s: State, schedule: seq<Action>, n: nat, end: State)
    requires |s.threads| == 2
  {
    KeepsWaiting(s, schedule, 0) && ReadsTaken(s, schedule, 1) == n && Execute(s, schedule) == end
  }

  lemma Prepend(s: State, c: Choice, schedule: seq<Action>, n: nat, end: State)
    requires |s.threads| == 2 && s.threads[0].WriteCas?
    requires LetsRead(Extend(s, Action(1, c)), schedule, n, end)
    ensures var s' := Extend(s, Action(1, c));
      LetsRead(s, [Action(1, c)] + schedule, if s.threads[1].ReadCas? && s'.threads[1].Reading? then n + 1 else n, end)
  {
    assert ([Action(1, c)] + schedule)[1..] == schedule;
  }

  /** One reader takes and releases the lock n times past an announced writer. */
  lemma {:induction false} OvertakesAgain(n: nat) returns (schedule: seq<Action>)
    ensures var s := State(RW_LOCK_FREE, 1, false, [WriteCas, Idle]);
      LetsRead(s, schedule, n, s)
  {
    var s := State(RW_LOCK_FREE, 1, false, [WriteCas, Idle]);
    schedule := [];
    if n > 0 {
      var go := Continue(false);
      var s1 := s.(threads := [WriteCas, ReadLoad]);
      var s2 := s.(threads := [WriteCas, ReadCheck(0)]);
      var s3 := s.(threads := [WriteCas, ReadCas(0)]);
      var s4 := s.(lockNum := 1, threads := [WriteCas, Reading]);
      schedule := OvertakesAgain(n - 1);
      assert Extend(s4, Action(1, Unlock)) == s;
      Prepend(s4, Unlock, schedule, n - 1, s);
      schedule := [Action(1, Unlock)] + schedule;
      assert Extend(s3, Action(1, go)) == s4;
      Prepend(s3, go, schedule, n - 1, s);
      schedule := [Action(1, go)] + schedule;
      assert Extend(s2, Action(1, go)) == s3;
      Prepend(s2, go, schedule, n, s);
      schedule := [Action(1, go)] + schedule;
      assert Extend(s1, Action(1, go)) == s2;
      Prepend(s1, go, schedule, n, s);
      schedule := [Action(1, go)] + schedule;
      assert Extend(s, Action(1, CallRead)) == s1;
      Prepend(s, CallRead, schedule, n, s);
      schedule := [Action(1, CallRead)] + schedule;
    }
  }

  /** Without write-first mode there is no such bound: for any n there is a run from the start in which
      thread 0 announces itself as a writer and thread 1 then takes the read lock n times past it. */
  lemma UnboundedOvertaking(n: nat) returns (announce: seq<Action>, overtake: seq<Action>)
    ensures var s := Execute(Init(false, 2), announce);
      && |s.threads| == 2 && KeepsWaiting(s, overtake, 0) && ReadsTaken(s, overtake, 1) == n
  {
    var start, first, second := Init(false, 2), Action(0, CallWrite), Action(0, Continue(false));
    announce := [first, second];
    overtake := OvertakesAgain(n);
    assert announce[1..] == [second];
    assert Extend(Extend(start, first), second) == State(RW_LOCK_FREE, 1, false, [WriteCas, Idle]);
    assert Execute(Extend(start, first), [second]) == Extend(Extend(start, first), second);
  }

  /** The schedule in which one thread runs alone. Each step says whether a swap of it fails for no
      reason. */
  function Solo(tid: nat, flags: seq<bool>): seq<Action> {
    if flags == [] then [] else [Action(tid, Continue(flags[0]))] + Solo(tid, flags[1..])
  }

  lemma {:induction false} HolderStays(s: State, t: nat, flags: seq<bool>)
    requires t < |s.threads| && (s.threads[t] == Reading || s.threads[t] == Writing)
    ensures Execute(s, Solo(t, flags)) == s
    decreases |flags|
  {
    if flags != [] {
      assert Solo(t, flags)[1..] == Solo(t, flags[1..]);
      HolderStays(s, t, flags[1..]);
    }
  }

  /** A thread that finds the lock open and runs alone gets it, from any state and however its swaps
      fail: readers while no writer is inside or, in write-first mode, waiting; writers while nobody is
      inside. */
  lemma {:induction false} OpenLockIsTaken(s: State, t: nat, flags: seq<bool>)
    requires Inv(s) && t < |s.threads|
    requires var l := s.threads[t]; l == WriteWithdraw || IsOpen(s, HoldingOf(l))
    requires |flags| >= Rank(s, s.threads[t]) + 2 * Failures(flags)
    ensures var s' := Execute(s, Solo(t, flags));
      && t < |s'.threads|
      && s'.threads[t] == if HoldingOf(s.threads[t]) == WantsRead then Reading else Writing
    decreases |flags|
  {
    assert Rank(s, s.threads[t]) >= 1;
    var s' := Step(s, t, Continue(flags[0]));
    assert Solo(t, flags)[1..] == Solo(t, flags[1..]);
    StepLowersRank(s, t, flags[0]);
    CallsAreServed(s, t, Continue(flags[0]));
    StepKeepsInv(s, t, Continue(flags[0]));
    if s'.threads[t] == Reading || s'.threads[t] == Writing {
      HolderStays(s', t, flags[1..]);
    } else {
      OpenLockIsTaken(s', t, flags[1..]);
    }
  }
}
