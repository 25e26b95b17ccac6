/** The lock-free bounded queue of `cyber/base/bounded_queue.h`, as a step system.

    Every step is one atomic load, store or compare-and-swap of one thread, on
    sequentially consistent memory. Counters are unbounded naturals. A weak
    compare-and-swap may fail spuriously: that is a choice of the schedule.
 */
module BoundedQueue {
  import opened Helpers
  import opened Modular

  /** Where a thread is inside Enqueue or Dequeue, with its local variables. */
  datatype Local<T> =
    | Idle
    | EnqLoadTail(x: T)
    | EnqLoadHead(x: T, oldTail: nat)
    | EnqCas(x: T, oldTail: nat)
    | EnqWrite(x: T, oldTail: nat)
    | EnqCommit(x: T, oldTail: nat)
    | DeqLoadHead
    | DeqLoadCommit(oldHead: nat)
    | DeqRead(oldHead: nat)
    | DeqCas(oldHead: nat, element: T)

  datatype State<T> = State(head: nat, tail: nat, commit: nat, pool: seq<T>, threads: seq<Local<T>>)

  /** What the schedule decides: a call by an idle thread, or one more step of a running one. */
  datatype Choice<T> = CallEnqueue(x: T) | CallDequeue | Continue(spurious: bool)

  /** What a step makes visible to callers. */
  datatype Event<T> = Silent | Enqueued(x: T) | RejectedFull | Dequeued(x: T) | FoundEmpty

  datatype Outcome<T> = Outcome(state: State<T>, event: Event<T>)

  /** The index computation of the source, which avoids the remainder operator. */
  function GetIndex(num: nat, poolSize: nat): (r: nat)
    requires poolSize > 0
    ensures r == num % poolSize
  {
    num - (num / poolSize) * poolSize
  }

  function Init<T>(size: nat, threadCount: nat, zero: T): (s: State<T>)
    ensures Inv(s) && Contents(s) == []
  {
    State(0, 1, 1, seq(size + 2, _ => zero), seq(threadCount, _ => Idle))
  }

  function Goto<T>(s: State<T>, t: nat, l: Local<T>): State<T>
    requires t < |s.threads|
  {
    s.(threads := s.threads[t := l])
  }

  function Step<T>(s: State<T>, t: nat, c: Choice<T>): Outcome<T>
    requires t < |s.threads| && |s.pool| > 0
  {
    var P := |s.pool|;
    match (s.threads[t], c)
    case (Idle, CallEnqueue(x)) => Outcome(Goto(s, t, EnqLoadTail(x)), Silent)
    case (Idle, CallDequeue) => Outcome(Goto(s, t, DeqLoadHead), Silent)
    case (EnqLoadTail(x), Continue(_)) => Outcome(Goto(s, t, EnqLoadHead(x, s.tail)), Silent)
    case (EnqLoadHead(x, oldTail), Continue(_)) =>
      if GetIndex(oldTail + 1, P) == GetIndex(s.head, P)
      then Outcome(Goto(s, t, Idle), RejectedFull)
      else Outcome(Goto(s, t, EnqCas(x, oldTail)), Silent)
    case (EnqCas(x, oldTail), Continue(spurious)) =>
      if s.tail == oldTail && !spurious
      then Outcome(Goto(s, t, EnqWrite(x, oldTail)).(tail := oldTail + 1), Silent)
      else Outcome(Goto(s, t, EnqLoadHead(x, s.tail)), Silent)
    case (EnqWrite(x, oldTail), Continue(_)) =>
      Outcome(Goto(s, t, EnqCommit(x, oldTail)).(pool := s.pool[GetIndex(oldTail, P) := x]), Silent)
    case (EnqCommit(x, oldTail), Continue(spurious)) =>
      if s.commit == oldTail && !spurious
      then Outcome(Goto(s, t, Idle).(commit := oldTail + 1), Enqueued(x))
      else Outcome(s, Silent)
    case (DeqLoadHead, Continue(_)) => Outcome(Goto(s, t, DeqLoadCommit(s.head)), Silent)
    case (DeqLoadCommit(oldHead), Continue(_)) =>
      if oldHead + 1 == s.commit
      then Outcome(Goto(s, t, Idle), FoundEmpty)
      else Outcome(Goto(s, t, DeqRead(oldHead)), Silent)
    case (DeqRead(oldHead), Continue(_)) =>
      Outcome(Goto(s, t, DeqCas(oldHead, s.pool[GetIndex(oldHead + 1, P)])), Silent)
    case (DeqCas(oldHead, element), Continue(spurious)) =>
      if s.head == oldHead && !spurious
      then Outcome(Goto(s, t, Idle).(head := oldHead + 1), Dequeued(element))
      else Outcome(Goto(s, t, DeqLoadCommit(s.head)), Silent)
    case _ => Outcome(s, Silent)
  }

  /** The thread owns a reserved position that is not committed yet. */
  predicate InFlight<T>(l: Local<T>) { l.EnqWrite? || l.EnqCommit? }

  ghost predicate LocalInv<T>(s: State<T>, l: Local<T>)
    requires |s.pool| > 0
  {
    var P := |s.pool|;
    match l
    case Idle => true
    case EnqLoadTail(_) => true
    case EnqLoadHead(_, oldTail) => oldTail <= s.tail
    case EnqCas(_, oldTail) => oldTail <= s.tail && (oldTail == s.tail ==> oldTail + 1 < s.head + P)
    case EnqWrite(_, oldTail) => s.commit <= oldTail < s.tail
    case EnqCommit(x, oldTail) => s.commit <= oldTail < s.tail && s.pool[GetIndex(oldTail, P)] == x
    case DeqLoadHead => true
    case DeqLoadCommit(oldHead) => oldHead <= s.head
    case DeqRead(oldHead) => oldHead <= s.head && (oldHead == s.head ==> oldHead + 1 < s.commit)
    case DeqCas(oldHead, element) =>
      oldHead <= s.head &&
      (oldHead == s.head ==> oldHead + 1 < s.commit && element == s.pool[GetIndex(oldHead + 1, P)])
  }

  predicate CountersOrdered<T>(s: State<T>) {
    s.head < s.commit <= s.tail < s.head + |s.pool|
  }

  /** Reserved, uncommitted positions are owned by exactly one thread each. */
  ghost predicate OwnersUnique<T>(s: State<T>) {
    forall t, u :: 0 <= t < u < |s.threads| && InFlight(s.threads[t]) && InFlight(s.threads[u]) ==>
      s.threads[t].oldTail != s.threads[u].oldTail
  }

  ghost predicate Owned<T>(s: State<T>, p: nat) {
    exists t :: 0 <= t < |s.threads| && InFlight(s.threads[t]) && s.threads[t].oldTail == p
  }

  ghost predicate Inv<T>(s: State<T>) {
    && |s.pool| >= 2
    && CountersOrdered(s)
    && (forall t :: 0 <= t < |s.threads| ==> LocalInv(s, s.threads[t]))
    && OwnersUnique(s)
    && (forall p :: s.commit <= p < s.tail ==> Owned(s, p))
  }

  /** The abstract FIFO: the committed positions that no Dequeue has claimed. */
  function Contents<T>(s: State<T>): (q: seq<T>)
    requires |s.pool| > 0 && s.head < s.commit
    ensures |q| == s.commit - s.head - 1
    ensures forall i :: 0 <= i < |q| ==> q[i] == s.pool[GetIndex(s.head + 1 + i, |s.pool|)]
  {
    seq(s.commit - s.head - 1, i requires 0 <= i => s.pool[GetIndex(s.head + 1 + i, |s.pool|)])
  }

  /** A full buffer is the only reason a rejected Enqueue can have when nobody moved the tail meanwhile. */
  ghost predicate BufferFull<T>(s: State<T>) { s.tail + 1 == s.head + |s.pool| }

  /** The invariant is kept by every step of every thread, whatever the schedule chooses. */
  lemma StepKeepsInv<T>(s: State<T>, t: nat, c: Choice<T>)
    requires Inv(s) && t < |s.threads|
    ensures Inv(Step(s, t, c).state)
  {
    var l := s.threads[t];
    if c.Continue? && l.EnqCas? && s.tail == l.oldTail && !c.spurious {
      ReserveKeepsInv(s, t, c);
    } else if c.Continue? && l.EnqWrite? {
      WriteKeepsInv(s, t, c);
    } else if c.Continue? && l.EnqCommit? && s.commit == l.oldTail && !c.spurious {
      CommitKeepsInv(s, t, c);
    } else {
      LocalStepKeepsInv(s, t, c);
    }
  }

  /** What a thread remembers stays right when only the head moves, and only up to the commit. */
  lemma HeadMoves<T>(s: State<T>, r: State<T>, l: Local<T>)
    requires |s.pool| > 0 && LocalInv(s, l)
    requires r.tail == s.tail && r.commit == s.commit && r.pool == s.pool && r.head >= s.head
    ensures LocalInv(r, l)
  {
  }

  lemma LocalStepKeepsLocal<T>(s: State<T>, t: nat, c: Choice<T>)
    requires Inv(s) && t < |s.threads|
    requires !(s.threads[t].EnqWrite? && c.Continue?)
    requires var r := Step(s, t, c).state;
      r.tail == s.tail && r.commit == s.commit && r.pool == s.pool
    ensures var r := Step(s, t, c).state;
      && CountersOrdered(r) && r.head >= s.head
      && LocalInv(r, r.threads[t])
      && r.threads == s.threads[t := r.threads[t]]
      && (InFlight(s.threads[t]) || InFlight(r.threads[t]) ==> r.threads[t] == s.threads[t])
  {
    var l := s.threads[t];
    if l.EnqLoadHead? && c.Continue? && l.oldTail == s.tail {
      SameSlot(s.head, s.tail + 1, |s.pool|);
    }
  }

  lemma LocalStepKeepsInv<T>(s: State<T>, t: nat, c: Choice<T>)
    requires Inv(s) && t < |s.threads|
    requires !(s.threads[t].EnqWrite? && c.Continue?)
    requires var r := Step(s, t, c).state;
      r.tail == s.tail && r.commit == s.commit && r.pool == s.pool
    ensures Inv(Step(s, t, c).state)
  {
    LocalStepKeepsLocal(s, t, c);
    LocalChangeKeepsInv(s, Step(s, t, c).state, t);
  }

  lemma LocalChangeKeepsInv<T>(s: State<T>, r: State<T>, t: nat)
    requires Inv(s) && t < |s.threads| == |r.threads|
    requires r.tail == s.tail && r.commit == s.commit && r.pool == s.pool && r.head >= s.head
    requires CountersOrdered(r) && LocalInv(r, r.threads[t]) && r.threads == s.threads[t := r.threads[t]]
    requires InFlight(s.threads[t]) || InFlight(r.threads[t]) ==> r.threads[t] == s.threads[t]
    ensures Inv(r)
  {
    forall u | 0 <= u < |r.threads| ensures LocalInv(r, r.threads[u]) {
      if u != t {
        HeadMoves(s, r, s.threads[u]);
      }
    }
    forall p | r.commit <= p < r.tail ensures Owned(r, p) {
      OwnerStays(s, r, t, p);
    }
  }

  lemma OwnerStays<T>(s: State<T>, r: State<T>, t: nat, p: nat)
    requires t < |s.threads| == |r.threads| && Owned(s, p)
    requires forall u :: 0 <= u < |s.threads| && u != t ==> r.threads[u] == s.threads[u]
    requires InFlight(s.threads[t]) && s.threads[t].oldTail == p ==> InFlight(r.threads[t]) && r.threads[t].oldTail == p
    ensures Owned(r, p)
  {
    var u :| 0 <= u < |s.threads| && InFlight(s.threads[u]) && s.threads[u].oldTail == p;
    assert InFlight(r.threads[u]) && r.threads[u].oldTail == p;
  }

  lemma ReserveKeepsInv<T>(s: State<T>, t: nat, c: Choice<T>)
    requires Inv(s) && t < |s.threads| && s.threads[t].EnqCas?
    requires s.tail == s.threads[t].oldTail && c == Continue(false)
    ensures Inv(Step(s, t, c).state)
  {
    var r := Step(s, t, c).state;
    forall p | r.commit <= p < r.tail ensures Owned(r, p) {
      if p == s.tail {
        assert InFlight(r.threads[t]);
      } else {
        OwnerStays(s, r, t, p);
      }
    }
  }

  /** A write to a reserved position touches no slot that another thread relies on. */
  lemma WriteKeepsLocal<T>(s: State<T>, r: State<T>, t: nat, u: nat, x: T)
    requires Inv(s) && t < |s.threads| && u < |s.threads| && u != t && s.threads[t].EnqWrite?
    requires r.head == s.head && r.tail == s.tail && r.commit == s.commit
    requires r.pool == s.pool[s.threads[t].oldTail % |s.pool| := x]
    ensures LocalInv(r, s.threads[u])
  {
    var P, p, l := |s.pool|, s.threads[t].oldTail, s.threads[u];
    assert LocalInv(s, l) && LocalInv(s, s.threads[t]);
    if l.EnqCommit? {
      if l.oldTail < p { SameSlot(l.oldTail, p, P); } else { SameSlot(p, l.oldTail, P); }
    } else if l.DeqCas? && l.oldHead == s.head {
      SameSlot(s.head + 1, p, P);
    }
  }

  lemma WriteKeepsInv<T>(s: State<T>, t: nat, c: Choice<T>)
    requires Inv(s) && t < |s.threads| && s.threads[t].EnqWrite? && c.Continue?
    ensures Inv(Step(s, t, c).state)
  {
    var l, r := s.threads[t], Step(s, t, c).state;
    assert r == s.(pool := s.pool[l.oldTail % |s.pool| := l.x], threads := s.threads[t := EnqCommit(l.x, l.oldTail)]);
    assert LocalInv(r, r.threads[t]);
    forall u | 0 <= u < |r.threads| ensures LocalInv(r, r.threads[u]) {
      if u != t {
        WriteKeepsLocal(s, r, t, u, l.x);
      }
    }
    forall q | r.commit <= q < r.tail ensures Owned(r, q) {
      OwnerStays(s, r, t, q);
    }
  }

  lemma CommitKeepsInv<T>(s: State<T>, t: nat, c: Choice<T>)
    requires Inv(s) && t < |s.threads| && s.threads[t].EnqCommit?
    requires s.commit == s.threads[t].oldTail && c == Continue(false)
    ensures Inv(Step(s, t, c).state)
  {
    var r := Step(s, t, c).state;
    forall u | 0 <= u < |r.threads| ensures LocalInv(r, r.threads[u]) {
      if u != t && InFlight(s.threads[u]) {
        assert s.threads[u].oldTail != s.threads[t].oldTail;
      }
    }
    forall p | r.commit <= p < r.tail ensures Owned(r, p) {
      OwnerStays(s, r, t, p);
    }
  }

  /** The outcome is that of one operation of an atomic bounded FIFO, or of none. */
  ghost predicate IsFifoStep<T>(s: State<T>, o: Outcome<T>)
    requires Inv(s)
  {
    && Inv(o.state)
    && |o.state.pool| == |s.pool|
    && match o.event
       case Silent => Contents(o.state) == Contents(s)
       case Enqueued(x) => Contents(o.state) == Contents(s) + [x] && |Contents(s)| < |s.pool| - 2
       case Dequeued(x) => Contents(s) == [x] + Contents(o.state)
       case FoundEmpty => Contents(s) == [] && Contents(o.state) == []
       case RejectedFull => Contents(o.state) == Contents(s)
  }

  lemma WriteKeepsContents<T>(s: State<T>, t: nat, c: Choice<T>)
    requires Inv(s) && t < |s.threads| && s.threads[t].EnqWrite? && c.Continue?
    requires Inv(Step(s, t, c).state)
    ensures Contents(Step(s, t, c).state) == Contents(s)
  {
    var r := Step(s, t, c).state;
    forall i | 0 <= i < |Contents(s)| ensures Contents(r)[i] == Contents(s)[i] {
      SameSlot(s.head + 1 + i, s.threads[t].oldTail, |s.pool|);
    }
  }

  lemma MoveKeepsOrder<T>(s: State<T>, t: nat, c: Choice<T>)
    requires Inv(s) && t < |s.threads| && !(s.threads[t].EnqWrite? && c.Continue?)
    requires Inv(Step(s, t, c).state)
    ensures IsFifoStep(s, Step(s, t, c))
  {
  }

  /** Each step is one operation of an atomic FIFO, or changes nothing a caller can see:
      Enqueue takes effect at its commit, Dequeue at its successful swap of the head, and an
      empty answer at the load of the commit counter. */
  lemma StepIsFifoStep<T>(s: State<T>, t: nat, c: Choice<T>)
    requires Inv(s) && t < |s.threads|
    ensures IsFifoStep(s, Step(s, t, c))
  {
    StepKeepsInv(s, t, c);
    if s.threads[t].EnqWrite? && c.Continue? {
      WriteKeepsContents(s, t, c);
    } else {
      MoveKeepsOrder(s, t, c);
    }
  }

  /** The tail that Enqueue read earlier is in the slot of the tail now: it is unmoved, or has moved by
      whole laps. */
  predicate SeesTailSlot<T>(s: State<T>, oldTail: nat)
    requires |s.pool| > 0
  {
    oldTail % |s.pool| == s.tail % |s.pool|
  }

  /** When the full answer can be trusted: a rejection is right exactly when the stale tail is in the slot
      of the tail, and then every Enqueue on a full buffer is rejected, too. */
  lemma RejectionIsRightExactly<T>(s: State<T>, t: nat, c: Choice<T>)
    requires Inv(s) && t < |s.threads| && s.threads[t].EnqLoadHead? && c.Continue?
    ensures var rejected, sees := Step(s, t, c).event == RejectedFull, SeesTailSlot(s, s.threads[t].oldTail);
      && (rejected ==> (BufferFull(s) <==> sees))
      && (sees ==> (BufferFull(s) <==> rejected))
  {
    SameSlot(s.head, s.tail + 1, |s.pool|);
    SameNextSlot(s.threads[t].oldTail, s.tail, |s.pool|);
  }

  /** With an unmoved tail, Enqueue is rejected exactly when every position is reserved. */
  lemma RejectedIffFull<T>(s: State<T>, t: nat, c: Choice<T>)
    requires Inv(s) && t < |s.threads| && s.threads[t].EnqLoadHead? && c.Continue?
    requires s.threads[t].oldTail == s.tail
    ensures Step(s, t, c).event == RejectedFull <==> BufferFull(s)
  {
    RejectionIsRightExactly(s, t, c);
  }

  /** The call that a thread is in. */
  datatype Call<T> = NoCall | Enqueueing(x: T) | Dequeueing

  function CallOf<T>(l: Local<T>): Call<T> {
    match l
    case Idle => NoCall
    case EnqLoadTail(x) => Enqueueing(x)
    case EnqLoadHead(x, _) => Enqueueing(x)
    case EnqCas(x, _) => Enqueueing(x)
    case EnqWrite(x, _) => Enqueueing(x)
    case EnqCommit(x, _) => Enqueueing(x)
    case _ => Dequeueing
  }

  /** The calls an idle thread can make. */
  function CallMade<T>(c: Choice<T>): Call<T> {
    match c
    case CallEnqueue(x) => Enqueueing(x)
    case CallDequeue => Dequeueing
    case Continue(_) => NoCall
  }

  /** What a call can answer: an Enqueue that it has stored its own element, or that it has just loaded a
      head whose slot is the next after the tail it read; a Dequeue an element, or that there is none. */
  ghost predicate Answers<T>(s: State<T>, l: Local<T>, call: Call<T>, e: Event<T>)
    requires |s.pool| > 0
  {
    match call
    case NoCall => false
    case Enqueueing(x) =>
      e == Enqueued(x) || (e == RejectedFull && l.EnqLoadHead? && (l.oldTail + 1) % |s.pool| == s.head % |s.pool|)
    case Dequeueing => e.Dequeued? || e == FoundEmpty
  }

  /** The call of the thread after a step: it begins with the call and ends with the answer. */
  function NextCall<T>(call: Call<T>, c: Choice<T>, e: Event<T>): Call<T> {
    if call.NoCall? then CallMade(c) else if e.Silent? then call else NoCall
  }

  /** A call goes on until it answers, and answers only what such a call can. Nothing else moves: not the
      other threads, not an idle thread without a call, and not a thread that is called while busy. */
  lemma CallsAnswer<T>(s: State<T>, t: nat, c: Choice<T>)
    requires Inv(s) && t < |s.threads|
    ensures var o, call := Step(s, t, c), CallOf(s.threads[t]);
      && o.state.threads == s.threads[t := o.state.threads[t]]
      && CallOf(o.state.threads[t]) == NextCall(call, c, o.event)
      && (o.event == Silent || Answers(s, s.threads[t], call, o.event))
      && (call == NoCall ==> o.state.(threads := s.threads) == s)
      && (call != NoCall && !c.Continue? ==> o == Outcome(s, Silent))
  {
  }

  /** One entry of a schedule: the thread that moves and its choice. */
  datatype Action<T> = Action(tid: nat, choice: Choice<T>)

  /** A run so far, with the call each thread has made and not been answered, and the values enqueued and
      dequeued in the order they took effect. */
  datatype Run<T> = Run(state: State<T>, calls: seq<Call<T>>, enqueued: seq<T>, dequeued: seq<T>)

  function Record<T>(r: Run<T>, o: Outcome<T>): Run<T> {
    match o.event
    case Enqueued(x) => r.(state := o.state, enqueued := r.enqueued + [x])
    case Dequeued(x) => r.(state := o.state, dequeued := r.dequeued + [x])
    case _ => r.(state := o.state)
  }

  /** The calls are kept by what the schedule asks and what the steps answer alone. */
  function NextCalls<T>(calls: seq<Call<T>>, a: Action<T>, e: Event<T>): seq<Call<T>> {
    if a.tid < |calls| then calls[a.tid := NextCall(calls[a.tid], a.choice, e)] else calls
  }

  function Extend<T>(r: Run<T>, a: Action<T>): (r': Run<T>)
    requires |r.state.pool| > 0
    ensures |r'.state.pool| == |r.state.pool|
  {
    if a.tid >= |r.state.threads| then r
    else
      var o := Step(r.state, a.tid, a.choice);
      Record(r, o).(calls := NextCalls(r.calls, a, o.event))
  }

  function Execute<T>(r: Run<T>, schedule: seq<Action<T>>): Run<T>
    requires |r.state.pool| > 0
    decreases schedule
  {
    if schedule == [] then r else Execute(Extend(r, schedule[0]), schedule[1..])
  }

  /** What was enqueued is what was dequeued, in order, followed by what the queue still holds, and every
      thread is in the call that it made. */
  ghost predicate IsFifo<T>(r: Run<T>) {
    && Inv(r.state) && r.enqueued == r.dequeued + Contents(r.state)
    && |r.calls| == |r.state.threads|
    && forall t :: 0 <= t < |r.calls| ==> r.calls[t] == CallOf(r.state.threads[t])
  }

  lemma RecordKeepsFifo<T>(r: Run<T>, o: Outcome<T>)
    requires Inv(r.state) && r.enqueued == r.dequeued + Contents(r.state) && IsFifoStep(r.state, o)
    ensures Record(r, o).state == o.state && Record(r, o).enqueued == Record(r, o).dequeued + Contents(o.state)
  {
    if o.event.Dequeued? {
      assert r.dequeued + ([o.event.x] + Contents(o.state)) == (r.dequeued + [o.event.x]) + Contents(o.state);
    } else if o.event.Enqueued? {
      assert (r.dequeued + Contents(r.state)) + [o.event.x] == r.dequeued + (Contents(r.state) + [o.event.x]);
    }
  }

  lemma ExtendKeepsFifo<T>(r: Run<T>, a: Action<T>)
    requires IsFifo(r)
    ensures IsFifo(Extend(r, a)) && |Extend(r, a).state.threads| == |r.state.threads|
  {
    if a.tid < |r.state.threads| {
      StepIsFifoStep(r.state, a.tid, a.choice);
      RecordKeepsFifo(r, Step(r.state, a.tid, a.choice));
      CallsAnswer(r.state, a.tid, a.choice);
    }
  }

  lemma {:induction false} ExecuteKeepsFifo<T>(r: Run<T>, schedule: seq<Action<T>>)
    requires IsFifo(r)
    ensures var r' := Execute(r, schedule);
      IsFifo(r') && |r'.state.pool| == |r.state.pool| && |r'.state.threads| == |r.state.threads|
    decreases schedule
  {
    if schedule != [] {
      ExtendKeepsFifo(r, schedule[0]);
      ExecuteKeepsFifo(Extend(r, schedule[0]), schedule[1..]);
    }
  }

  function Start<T>(size: nat, threadCount: nat, zero: T): Run<T> {
    Run(Init(size, threadCount, zero), seq(threadCount, _ => NoCall), [], [])
  }

  /** Over every run of any number of threads, nothing is lost, duplicated or reordered, and no more
      than the configured number of elements is held. */
  lemma RunIsFifo<T>(size: nat, threadCount: nat, zero: T, schedule: seq<Action<T>>)
    ensures var r := Execute(Start(size, threadCount, zero), schedule);
      && Inv(r.state)
      && r.enqueued == r.dequeued + Contents(r.state)
      && |Contents(r.state)| <= size
  {
    ExecuteKeepsFifo(Start(size, threadCount, zero), schedule);
  }

  /** Over every run, a thread is idle exactly when it has made no call that is not answered, and the
      next step of any thread is silent or answers the very call that this thread has made. */
  lemma RunAnswersCalls<T>(size: nat, threadCount: nat, zero: T, schedule: seq<Action<T>>, a: Action<T>)
    requires a.tid < threadCount
    ensures var r := Execute(Start(size, threadCount, zero), schedule);
      && |r.calls| == |r.state.threads| == threadCount && |r.state.pool| == size + 2
      && (r.state.threads[a.tid] == Idle <==> r.calls[a.tid] == NoCall)
      && var e := Step(r.state, a.tid, a.choice).event;
         e == Silent || Answers(r.state, r.state.threads[a.tid], r.calls[a.tid], e)
  {
    ExecuteKeepsFifo(Start(size, threadCount, zero), schedule);
    CallsAnswer(Execute(Start(size, threadCount, zero), schedule).state, a.tid, a.choice);
  }

  /** How far a thread is from its answer if it runs alone; what it read earlier may be out of date. */
  function Rank<T>(s: State<T>, l: Local<T>): nat {
    match l
    case Idle => 0
    case EnqLoadTail(_) => 5
    case EnqLoadHead(_, oldTail) => if oldTail == s.tail then 4 else 6
    case EnqCas(_, oldTail) => if oldTail == s.tail then 3 else 5
    case EnqWrite(_, _) => 2
    case EnqCommit(_, _) => 1
    case DeqLoadHead => 4
    case DeqLoadCommit(oldHead) => if oldHead == s.head then 3 else 6
    case DeqRead(oldHead) => if oldHead == s.head then 2 else 5
    case DeqCas(oldHead, _) => if oldHead == s.head then 1 else 4
  }

  /** No thread but t is between its reservation and its commit: nobody keeps t from committing. */
  ghost predicate NoneInFlight<T>(s: State<T>, t: nat) {
    forall u :: 0 <= u < |s.threads| && u != t ==> !InFlight(s.threads[u])
  }

  lemma CommitIsFree<T>(s: State<T>, t: nat)
    requires Inv(s) && t < |s.threads| && NoneInFlight(s, t)
    ensures InFlight(s.threads[t]) ==> s.commit == s.threads[t].oldTail
    ensures !InFlight(s.threads[t]) ==> s.commit == s.tail
  {
    if s.commit < s.tail {
      assert Owned(s, s.commit);
    }
  }

  /** A step of a thread that nobody holds up brings it one closer to its answer; a compare-and-swap that
      fails for no reason takes it back by two at most. */
  lemma StepLowersRank<T>(s: State<T>, t: nat, spurious: bool)
    requires Inv(s) && t < |s.threads| && !s.threads[t].Idle?
    requires InFlight(s.threads[t]) ==> s.commit == s.threads[t].oldTail
    ensures var r := Step(s, t, Continue(spurious)).state;
      Rank(r, r.threads[t]) <= if spurious then Rank(s, s.threads[t]) + 2 else Rank(s, s.threads[t]) - 1
  {
  }

  /** The schedule in which one thread runs alone. Each step says whether a compare-and-swap of it fails
      for no reason. */
  function Solo<T>(tid: nat, flags: seq<bool>): seq<Action<T>> {
    if flags == [] then [] else [Action(tid, Continue(flags[0]))] + Solo(tid, flags[1..])
  }

  lemma SoloStep<T>(r: Run<T>, t: nat, spurious: bool)
    requires IsFifo(r) && t < |r.state.threads| && NoneInFlight(r.state, t)
    ensures var r' := Extend(r, Action(t, Continue(spurious)));
      && IsFifo(r') && |r'.state.threads| == |r.state.threads| && NoneInFlight(r'.state, t)
      && |r'.state.pool| == |r.state.pool|
  {
    ExtendKeepsFifo(r, Action(t, Continue(spurious)));
    CallsAnswer(r.state, t, Continue(spurious));
  }

  lemma {:induction false} IdleStays<T>(r: Run<T>, t: nat, flags: seq<bool>)
    requires IsFifo(r) && t < |r.state.threads| && r.state.threads[t] == Idle
    ensures Execute(r, Solo(t, flags)) == r
    decreases |flags|
  {
    if flags != [] {
      assert Solo<T>(t, flags)[1..] == Solo(t, flags[1..]);
      CallsAnswer(r.state, t, Continue(flags[0]));
      var r' := Extend(r, Action(t, Continue(flags[0])));
      assert r'.state.threads == r.state.threads && r'.calls == r.calls;
      IdleStays(r, t, flags[1..]);
    }
  }

  /** A thread that runs alone, from any state in which no other thread has a position reserved, answers
      its call after a bounded number of steps, however its swaps fail. */
  lemma {:induction false} SoloCallAnswers<T>(r: Run<T>, t: nat, flags: seq<bool>)
    requires IsFifo(r) && t < |r.state.threads| && NoneInFlight(r.state, t)
    requires |flags| >= Rank(r.state, r.state.threads[t]) + 3 * Failures(flags)
    ensures var s' := Execute(r, Solo(t, flags)).state;
      t < |s'.threads| && s'.threads[t] == Idle
    decreases |flags|
  {
    if r.state.threads[t] == Idle {
      IdleStays(r, t, flags);
    } else {
      assert Solo<T>(t, flags)[1..] == Solo(t, flags[1..]);
      SoloStep(r, t, flags[0]);
      CallsAnswer(r.state, t, Continue(flags[0]));
      CommitIsFree(r.state, t);
      StepLowersRank(r.state, t, flags[0]);
      SoloCallAnswers(Extend(r, Action(t, Continue(flags[0]))), t, flags[1..]);
    }
  }

  /** An Enqueue of x on its way, that will not be rejected if it runs alone. */
  ghost predicate WillEnqueue<T>(s: State<T>, l: Local<T>, x: T) {
    match l
    case EnqLoadTail(y) => y == x && !BufferFull(s)
    case EnqLoadHead(y, oldTail) => y == x && oldTail == s.tail && !BufferFull(s)
    case EnqCas(y, oldTail) => y == x && oldTail == s.tail && !BufferFull(s)
    case EnqWrite(y, _) => y == x
    case EnqCommit(y, _) => y == x
    case _ => false
  }

  lemma EnqueueStep<T>(s: State<T>, t: nat, x: T, spurious: bool)
    requires Inv(s) && t < |s.threads| && WillEnqueue(s, s.threads[t], x)
    ensures var o := Step(s, t, Continue(spurious));
      if o.event == Silent then WillEnqueue(o.state, o.state.threads[t], x) else o.event == Enqueued(x)
  {
    if s.threads[t].EnqLoadHead? {
      RejectedIffFull(s, t, Continue(spurious));
    }
  }

  lemma {:induction false} EnqueueGoesThrough<T>(r: Run<T>, t: nat, x: T, flags: seq<bool>)
    requires IsFifo(r) && t < |r.state.threads| && NoneInFlight(r.state, t)
    requires WillEnqueue(r.state, r.state.threads[t], x)
    requires |flags| >= Rank(r.state, r.state.threads[t]) + 3 * Failures(flags)
    ensures var r' := Execute(r, Solo(t, flags));
      && |r'.state.threads| == |r.state.threads| && r'.state.threads[t] == Idle
      && r'.enqueued == r.enqueued + [x] && r'.dequeued == r.dequeued
    decreases |flags|
  {
    var r', o := Extend(r, Action(t, Continue(flags[0]))), Step(r.state, t, Continue(flags[0]));
    assert Solo<T>(t, flags)[1..] == Solo(t, flags[1..]);
    SoloStep(r, t, flags[0]);
    CallsAnswer(r.state, t, Continue(flags[0]));
    EnqueueStep(r.state, t, x, flags[0]);
    CommitIsFree(r.state, t);
    StepLowersRank(r.state, t, flags[0]);
    if o.event == Silent {
      EnqueueGoesThrough(r', t, x, flags[1..]);
    } else {
      IdleStays(r', t, flags[1..]);
    }
  }

  /** Enqueue on a queue with room stores its element, if nobody else is at work, however its swaps fail. */
  lemma EnqueueSucceeds<T>(r: Run<T>, t: nat, x: T, flags: seq<bool>)
    requires IsFifo(r) && t < |r.state.threads| && NoneInFlight(r.state, t)
    requires r.state.threads[t] == Idle && |Contents(r.state)| < |r.state.pool| - 2
    requires |flags| >= 5 + 3 * Failures(flags)
    ensures var r' := Execute(r, [Action(t, CallEnqueue(x))] + Solo(t, flags));
      && |r'.state.threads| == |r.state.threads| && r'.state.threads[t] == Idle
      && r'.enqueued == r.enqueued + [x] && r'.dequeued == r.dequeued
  {
    var a := Action(t, CallEnqueue(x));
    CommitIsFree(r.state, t);
    ExtendKeepsFifo(r, a);
    CallsAnswer(r.state, t, CallEnqueue(x));
    assert ([a] + Solo(t, flags))[1..] == Solo(t, flags);
    assert Extend(r, a).state.threads[t] == EnqLoadTail(x);
    EnqueueGoesThrough(Extend(r, a), t, x, flags);
  }

  /** A Dequeue on its way, that will find an element if it runs alone. */
  ghost predicate WillDequeue<T>(s: State<T>, l: Local<T>) {
    s.head + 1 < s.commit &&
    match l
    case DeqLoadHead => true
    case DeqLoadCommit(oldHead) => oldHead == s.head
    case DeqRead(oldHead) => oldHead == s.head
    case DeqCas(oldHead, _) => oldHead == s.head
    case _ => false
  }

  lemma DequeueStep<T>(s: State<T>, t: nat, spurious: bool)
    requires Inv(s) && t < |s.threads| && WillDequeue(s, s.threads[t])
    ensures var o := Step(s, t, Continue(spurious));
      if o.event == Silent then WillDequeue(o.state, o.state.threads[t]) else o.event.Dequeued?
  {
  }

  lemma {:induction false} DequeueGoesThrough<T>(r: Run<T>, t: nat, flags: seq<bool>)
    requires IsFifo(r) && t < |r.state.threads| && NoneInFlight(r.state, t)
    requires WillDequeue(r.state, r.state.threads[t])
    requires |flags| >= Rank(r.state, r.state.threads[t]) + 3 * Failures(flags)
    ensures var r' := Execute(r, Solo(t, flags));
      && |r'.state.threads| == |r.state.threads| && r'.state.threads[t] == Idle
      && r'.enqueued == r.enqueued && |r'.dequeued| == |r.dequeued| + 1
    decreases |flags|
  {
    var r', o := Extend(r, Action(t, Continue(flags[0]))), Step(r.state, t, Continue(flags[0]));
    assert Solo<T>(t, flags)[1..] == Solo(t, flags[1..]);
    SoloStep(r, t, flags[0]);
    CallsAnswer(r.state, t, Continue(flags[0]));
    DequeueStep(r.state, t, flags[0]);
    StepLowersRank(r.state, t, flags[0]);
    if o.event == Silent {
      DequeueGoesThrough(r', t, flags[1..]);
    } else {
      IdleStays(r', t, flags[1..]);
    }
  }

  /** Dequeue on a queue that is not empty takes the oldest element, if nobody else is at work, however
      its swaps fail. */
  lemma DequeueSucceeds<T>(r: Run<T>, t: nat, flags: seq<bool>)
    requires IsFifo(r) && t < |r.state.threads| && NoneInFlight(r.state, t)
    requires r.state.threads[t] == Idle && Contents(r.state) != []
    requires |flags| >= 4 + 3 * Failures(flags)
    ensures var r' := Execute(r, [Action(t, CallDequeue)] + Solo(t, flags));
      && |r'.state.threads| == |r.state.threads| && r'.state.threads[t] == Idle
      && r'.enqueued == r.enqueued && r'.dequeued == r.dequeued + [Contents(r.state)[0]]
  {
    var a := Action(t, CallDequeue);
    ExtendKeepsFifo(r, a);
    CallsAnswer(r.state, t, CallDequeue);
    assert ([a] + Solo(t, flags))[1..] == Solo(t, flags);
    assert Extend(r, a).state.threads[t] == DeqLoadHead;
    DequeueGoesThrough(Extend(r, a), t, flags);
    DequeuesInOrder(r, [a] + Solo(t, flags));
  }

  lemma {:induction false} HistoryGrows<T>(r: Run<T>, schedule: seq<Action<T>>)
    requires |r.state.pool| > 0
    ensures r.dequeued <= Execute(r, schedule).dequeued && r.enqueued <= Execute(r, schedule).enqueued
    decreases schedule
  {
    if schedule != [] {
      HistoryGrows(Extend(r, schedule[0]), schedule[1..]);
    }
  }

  /** The next element to be dequeued is the first of the contents, whatever happens in between. */
  lemma DequeuesInOrder<T>(r: Run<T>, schedule: seq<Action<T>>)
    requires IsFifo(r) && Contents(r.state) != []
    ensures var d := Execute(r, schedule).dequeued;
      |d| > |r.dequeued| ==> d[..|r.dequeued| + 1] == r.dequeued + [Contents(r.state)[0]]
  {
    var r' := Execute(r, schedule);
    ExecuteKeepsFifo(r, schedule);
    HistoryGrows(r, schedule);
    NextOfHistory(r.dequeued, Contents(r.state), r'.dequeued, Contents(r'.state));
  }

  /** If a history only grows, and what is dequeued is the first part of it, the next is the next. */
  lemma NextOfHistory<T>(dequeued: seq<T>, rest: seq<T>, dequeued': seq<T>, rest': seq<T>)
    requires dequeued <= dequeued' && dequeued + rest <= dequeued' + rest' && rest != []
    ensures |dequeued'| > |dequeued| ==> dequeued'[..|dequeued| + 1] == dequeued + [rest[0]]
  {
    var n := |dequeued|;
    if |dequeued'| > n {
      assert dequeued'[n] == (dequeued' + rest')[n] == (dequeued + rest)[n] == rest[0];
    }
  }

  lemma {:induction false} ExecuteKeepsPool<T>(r: Run<T>, a: seq<Action<T>>)
    requires |r.state.pool| > 0
    ensures |Execute(r, a).state.pool| == |r.state.pool|
    decreases a
  {
    if a != [] {
      ExecuteKeepsPool(Extend(r, a[0]), a[1..]);
    }
  }

  lemma StartsWith<T>(r: Run<T>, a: Action<T>, rest: seq<Action<T>>)
    requires |r.state.pool| > 0
    ensures Execute(r, [a] + rest) == Execute(Extend(r, a), rest)
  {
    assert ([a] + rest)[1..] == rest;
  }

  lemma FirstStep<T>(r: Run<T>, a: seq<Action<T>>, b: seq<Action<T>>) returns (r': Run<T>)
    requires |r.state.pool| > 0 && a != []
    ensures |r'.state.pool| > 0 && Execute(r, a) == Execute(r', a[1..]) && Execute(r, a + b) == Execute(r', a[1..] + b)
  {
    r' := Extend(r, a[0]);
    assert a + b == [a[0]] + (a[1..] + b);
    StartsWith(r, a[0], a[1..] + b);
  }

  lemma {:induction false} ExecuteConcat<T>(r: Run<T>, a: seq<Action<T>>, b: seq<Action<T>>)
    requires |r.state.pool| > 0
    ensures |Execute(r, a).state.pool| > 0
    ensures Execute(r, a + b) == Execute(Execute(r, a), b)
    decreases a
  {
    ExecuteKeepsPool(r, a);
    if a == [] {
      assert a + b == b;
    } else {
      var r' := FirstStep(r, a, b);
      ExecuteConcat(r', a[1..], b);
    }
  }

  function Moves(tid: nat, c: Choice<int>, n: nat): seq<Action<int>> {
    [Action(tid, c)] + seq(n, _ => Action(tid, Continue(false)))
  }

  /** The state after n more steps of one thread that runs alone. */
  function Alone(s: State<int>, tid: nat, n: nat): State<int>
    requires |s.pool| > 0 && tid < |s.threads|
    decreases n
  {
    if n == 0 then s else Alone(Step(s, tid, Continue(false)).state, tid, n - 1)
  }

  lemma {:induction false} MovesAreAlone(r: Run<int>, tid: nat, n: nat)
    requires |r.state.pool| > 0 && tid < |r.state.threads|
    ensures Execute(r, seq(n, _ => Action(tid, Continue(false)))).state == Alone(r.state, tid, n)
    decreases n
  {
    var moves := seq(n, _ => Action(tid, Continue(false)));
    if n > 0 {
      assert moves[1..] == seq(n - 1, _ => Action(tid, Continue(false)));
      MovesAreAlone(Extend(r, moves[0]), tid, n - 1);
    }
  }

  lemma CallAlone(r: Run<int>, tid: nat, c: Choice<int>, n: nat)
    requires |r.state.pool| > 0 && tid < |r.state.threads|
    ensures Execute(r, Moves(tid, c, n)).state == Alone(Step(r.state, tid, c).state, tid, n)
  {
    assert Moves(tid, c, n)[1..] == seq(n, _ => Action(tid, Continue(false)));
    MovesAreAlone(Extend(r, Action(tid, c)), tid, n);
  }

  /** An Enqueue that runs alone on a drained queue. */
  lemma EnqueueAlone(s: State<int>, x: int)
    requires |s.pool| >= 3 && |s.threads| == 2 && s.threads[1] == Idle
    requires s.commit == s.tail == s.head + 1
    ensures var s' := Alone(Step(s, 1, CallEnqueue(x)).state, 1, 5);
      s'.head == s.head && s'.tail == s'.commit == s.tail + 1 && s'.threads == s.threads && |s'.pool| == |s.pool|
  {
    SameSlot(s.head, s.tail + 1, |s.pool|);
    var go := Continue(false);
    var s1 := Step(s, 1, CallEnqueue(x)).state;
    var s2 := Step(s1, 1, go).state;
    assert s2 == s.(threads := s.threads[1 := EnqLoadHead(x, s.tail)]);
    var s3 := Step(s2, 1, go).state;
    assert s3 == s.(threads := s.threads[1 := EnqCas(x, s.tail)]);
    var s4 := Step(s3, 1, go).state;
    assert s4 == s.(tail := s.tail + 1, threads := s.threads[1 := EnqWrite(x, s.tail)]);
    var s6 := Step(Step(s4, 1, go).state, 1, go).state;
    assert s6.threads == s.threads;
    assert Alone(s3, 1, 3) == Alone(s4, 1, 2) == s6;
    assert Alone(s1, 1, 5) == Alone(s2, 1, 4) == Alone(s3, 1, 3);
  }

  /** A Dequeue that runs alone on a queue of one element. */
  lemma DequeueAlone(s: State<int>)
    requires |s.pool| >= 3 && |s.threads| == 2 && s.threads[1] == Idle
    requires s.commit == s.head + 2
    ensures Alone(Step(s, 1, CallDequeue).state, 1, 4) == s.(head := s.head + 1)
  {
    var go := Continue(false);
    var s1 := Step(s, 1, CallDequeue).state;
    var s2 := Step(s1, 1, go).state;
    assert s2 == s.(threads := s.threads[1 := DeqLoadCommit(s.head)]);
    var s3 := Step(s2, 1, go).state;
    assert s3 == s.(threads := s.threads[1 := DeqRead(s.head)]);
    var s5 := Step(Step(s3, 1, go).state, 1, go).state;
    assert s5.threads == s.threads;
    assert Alone(s3, 1, 2) == s5;
    assert Alone(s1, 1, 4) == Alone(s2, 1, 3) == Alone(s3, 1, 2);
  }

  /** With a stale tail the answer "full" can be wrong: thread 0 reads the tail, thread 1 passes two
      elements through the queue, and thread 0 is then rejected although the queue is empty. */
  lemma StaleTailRejectsOnEmptyQueue() returns (schedule: seq<Action<int>>)
    ensures var s := Execute(Start(1, 2, 0), schedule).state;
      Inv(s) && |s.threads| == 2 && Contents(s) == [] && Step(s, 0, Continue(false)).event == RejectedFull
  {
    var r := Start(1, 2, 0);
    schedule := [Action(0, CallEnqueue(7)), Action(0, Continue(false))];
    var s0 := Extend(Extend(r, schedule[0]), schedule[1]);
    assert Execute(r, schedule) == s0;
    for i := 0 to 2
      invariant |Execute(r, schedule).state.pool| == 3
      invariant var s := Execute(r, schedule).state;
        && s.head == i && s.commit == s.tail == i + 1
        && s.threads == [EnqLoadHead(7, 1), Idle]
    {
      var s1 := Execute(r, schedule);
      CallAlone(s1, 1, CallEnqueue(8), 5);
      EnqueueAlone(s1.state, 8);
      ExecuteConcat(r, schedule, Moves(1, CallEnqueue(8), 5));
      var s2 := Execute(s1, Moves(1, CallEnqueue(8), 5));
      CallAlone(s2, 1, CallDequeue, 4);
      DequeueAlone(s2.state);
      schedule := schedule + Moves(1, CallEnqueue(8), 5);
      ExecuteConcat(r, schedule, Moves(1, CallDequeue, 4));
      schedule := schedule + Moves(1, CallDequeue, 4);
    }
    RunIsFifo(1, 2, 0, schedule);
  }
}
