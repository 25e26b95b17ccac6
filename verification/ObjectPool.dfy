/** The free list of `cyber/base/concurrent_object_pool.h`: a stack of arena nodes under a head that
    pairs a node with a change counter. One step is one atomic load, store or compare-and-swap of one
    thread. The counter is an unbounded natural. */
module ObjectPool {
  import opened Helpers

  /** The word that is swapped as a whole. */
  datatype Head = Head(count: nat, node: Option<nat>)

  datatype Local =
    | Idle
    | GetLoad
    | GetNext(seen: Head)
    | GetCas(seen: Head, next: Option<nat>)
    | PutLoad(n: nat)
    | PutLink(n: nat, seen: Head)
    | PutCas(n: nat, seen: Head)

  /** `next` has one entry per arena node; `held` are the nodes users hold. */
  datatype State = State(free: Head, next: seq<Option<nat>>, held: set<nat>, threads: seq<Local>)

  datatype Choice = CallGet | CallRelease(n: nat) | Continue(spurious: bool)

  datatype Event = Silent | Got(n: nat) | Exhausted | Released(n: nat)

  datatype Outcome = Outcome(state: State, event: Event)

  /** The constructor threads the arena in index order; an arena without nodes is out of its bounds. */
  function Init(capacity: nat, threadCount: nat): State
    requires capacity >= 1
  {
    State(Head(0, Some(0)),
          seq(capacity, i requires 0 <= i => if i == capacity - 1 then None else Some(i + 1)),
          {},
          seq(threadCount, _ => Idle))
  }

  function Goto(s: State, t: nat, l: Local): State
    requires t < |s.threads|
  {
    s.(threads := s.threads[t := l])
  }

  /** FindFreeHead after it has seen the current head, at the first load or after a failed swap. */
  function Look(s: State, t: nat): Outcome
    requires t < |s.threads|
  {
    if s.free.node.None? then Outcome(Goto(s, t, Idle), Exhausted)
    else Outcome(Goto(s, t, GetNext(s.free)), Silent)
  }

  /** Reading a link. Only arena nodes are ever read, which the invariant shows. */
  function NextOf(s: State, node: Option<nat>): Option<nat> {
    if IsNode(s, node) then s.next[node.value] else None
  }

  function SetNext(s: State, n: nat, link: Option<nat>): seq<Option<nat>> {
    if n < |s.next| then s.next[n := link] else s.next
  }

  function Step(s: State, t: nat, c: Choice): Outcome
    requires t < |s.threads|
  {
    match (s.threads[t], c)
    case (Idle, CallGet) => Outcome(Goto(s, t, GetLoad), Silent)
    case (Idle, CallRelease(n)) =>
      if n in s.held then Outcome(Goto(s, t, PutLoad(n)).(held := s.held - {n}), Silent) else Outcome(s, Silent)
    case (GetLoad, Continue(_)) => Look(s, t)
    case (GetNext(seen), Continue(_)) => Outcome(Goto(s, t, GetCas(seen, NextOf(s, seen.node))), Silent)
    case (GetCas(seen, next), Continue(spurious)) =>
      if s.free == seen && !spurious && seen.node.Some?
      then Outcome(Goto(s, t, Idle).(free := Head(seen.count + 1, next), held := s.held + {seen.node.value}),
                   Got(seen.node.value))
      else Look(s, t)
    case (PutLoad(n), Continue(_)) => Outcome(Goto(s, t, PutLink(n, s.free)), Silent)
    case (PutLink(n, seen), Continue(_)) =>
      Outcome(Goto(s, t, PutCas(n, seen)).(next := SetNext(s, n, seen.node)), Silent)
    case (PutCas(n, seen), Continue(spurious)) =>
      if s.free == seen && !spurious
      then Outcome(Goto(s, t, Idle).(free := Head(seen.count + 1, Some(n))), Released(n))
      else Outcome(Goto(s, t, PutLink(n, s.free)), Silent)
    case _ => Outcome(s, Silent)
  }

  /** A head read earlier is never ahead, and with an equal counter it is still the head. */
  predicate Seen(s: State, seen: Head) {
    seen.count <= s.free.count && (seen.count == s.free.count ==> seen == s.free)
  }

  predicate IsNode(s: State, node: Option<nat>) { node.Some? && node.value < |s.next| }

  predicate LocalInv(s: State, l: Local) {
    match l
    case Idle => true
    case GetLoad => true
    case GetNext(seen) => Seen(s, seen) && IsNode(s, seen.node)
    // the tag argument: an equal counter means the successor read earlier is still right
    case GetCas(seen, next) =>
      Seen(s, seen) && IsNode(s, seen.node) && (seen.count == s.free.count ==> next == s.next[seen.node.value])
    case PutLoad(n) => n < |s.next|
    case PutLink(n, seen) => n < |s.next| && Seen(s, seen)
    case PutCas(n, seen) => n < |s.next| && Seen(s, seen) && s.next[n] == seen.node
  }

  /** The thread owns a node that it is putting back. */
  predicate Releasing(l: Local) { l.PutLoad? || l.PutLink? || l.PutCas? }

  /** `chain` lists the free nodes from the head on; it ends, and so has no cycle. */
  ghost predicate IsFreeList(s: State, chain: seq<nat>) {
    && s.free.node == ElementAt(chain, 0)
    && (forall i :: 0 <= i < |chain| ==> chain[i] < |s.next|)
    && (forall i :: 0 <= i < |chain| ==> s.next[chain[i]] == ElementAt(chain, i + 1))
    && (forall i, j :: 0 <= i < j < |chain| ==> chain[i] != chain[j])
  }

  ghost predicate BeingReleased(s: State, n: nat) {
    exists t :: 0 <= t < |s.threads| && Releasing(s.threads[t]) && s.threads[t].n == n
  }

  /** Free, held and in-flight nodes are disjoint, and together they are the whole arena. */
  ghost predicate Partition(s: State, chain: seq<nat>) {
    && (forall n :: n in s.held ==> n < |s.next| && n !in chain)
    && (forall t :: 0 <= t < |s.threads| && Releasing(s.threads[t]) ==>
          s.threads[t].n !in chain && s.threads[t].n !in s.held)
    && (forall t, u :: 0 <= t < u < |s.threads| && Releasing(s.threads[t]) && Releasing(s.threads[u]) ==>
          s.threads[t].n != s.threads[u].n)
    && (forall n :: 0 <= n < |s.next| ==> n in chain || n in s.held || BeingReleased(s, n))
  }

  ghost predicate Inv(s: State, chain: seq<nat>) {
    && (forall t :: 0 <= t < |s.threads| ==> LocalInv(s, s.threads[t]))
    && IsFreeList(s, chain)
    && Partition(s, chain)
  }

  /** The free list after an event, as an atomic stack would have it. */
  function NextChain(chain: seq<nat>, e: Event): seq<nat> {
    match e
    case Got(_) => if chain == [] then [] else chain[1..]
    case Released(n) => [n] + chain
    case _ => chain
  }

  lemma InitInv(capacity: nat, threadCount: nat)
    requires capacity >= 1
    ensures Inv(Init(capacity, threadCount), seq(capacity, i requires 0 <= i => i))
  {
    var s, chain := Init(capacity, threadCount), seq(capacity, i requires 0 <= i => i);
    forall n | 0 <= n < capacity ensures n in chain {
      assert chain[n] == n;
    }
  }

  /** The outcome is that of one operation of an atomic stack of free nodes, or of none. A node is
      handed out only from the top of the free list, when nobody held it, and an empty answer is
      given only while the list is empty. */
  ghost predicate IsStackStep(s: State, chain: seq<nat>, o: Outcome) {
    var chain' := NextChain(chain, o.event);
    && Inv(o.state, chain')
    && |o.state.next| == |s.next|
    && match o.event
       case Silent => o.state.held <= s.held
       case Got(n) => chain == [n] + chain' && n !in s.held && o.state.held == s.held + {n}
       case Exhausted => chain == [] && o.state.held == s.held
       case Released(n) => n !in s.held && o.state.held == s.held
  }

  lemma OthersStillRelease(s: State, r: State, t: nat, n: nat)
    requires t < |s.threads| == |r.threads| && BeingReleased(s, n)
    requires forall u :: 0 <= u < |s.threads| && u != t ==> r.threads[u] == s.threads[u]
    requires Releasing(s.threads[t]) && s.threads[t].n == n ==> Releasing(r.threads[t]) && r.threads[t].n == n
    ensures BeingReleased(r, n)
  {
    var u :| 0 <= u < |s.threads| && Releasing(s.threads[u]) && s.threads[u].n == n;
    assert Releasing(r.threads[u]) && r.threads[u].n == n;
  }

  /** Only thread t moves, and the nodes it owns do not change, except by starting a release. */
  ghost predicate OwnsAsBefore(s: State, r: State, t: nat) {
    && t < |s.threads| == |r.threads| && |r.next| == |s.next|
    && (forall u :: 0 <= u < |s.threads| && u != t ==> r.threads[u] == s.threads[u])
    && var l, l' := s.threads[t], r.threads[t];
       if r.held == s.held
       then Releasing(l) == Releasing(l') && (Releasing(l) ==> l.n == l'.n)
       else !Releasing(l) && l'.PutLoad? && l'.n in s.held && r.held == s.held - {l'.n}
  }

  lemma PartitionStays(s: State, r: State, chain: seq<nat>, t: nat)
    requires Partition(s, chain) && OwnsAsBefore(s, r, t)
    ensures Partition(r, chain)
  {
    forall n | 0 <= n < |r.next| ensures n in chain || n in r.held || BeingReleased(r, n) {
      if BeingReleased(s, n) {
        OthersStillRelease(s, r, t, n);
      } else if n in s.held && n !in r.held {
        assert Releasing(r.threads[t]) && r.threads[t].n == n;
      }
    }
  }

  /** Away from successful swaps and link writes, a step changes the thread and its own nodes at most. */
  lemma QuietMove(s: State, chain: seq<nat>, t: nat, c: Choice)
    requires Inv(s, chain) && t < |s.threads|
    requires Step(s, t, c).state.free == s.free && !(c.Continue? && s.threads[t].PutLink?)
    ensures var o := Step(s, t, c);
      && o.state.next == s.next && OwnsAsBefore(s, o.state, t) && LocalInv(o.state, o.state.threads[t])
      && (o.event == Silent || (o.event == Exhausted && s.free.node.None?))
      && o.state.held <= s.held && (o.event == Exhausted ==> o.state.held == s.held)
  {
  }

  lemma QuietStep(s: State, chain: seq<nat>, t: nat, c: Choice)
    requires Inv(s, chain) && t < |s.threads|
    requires Step(s, t, c).state.free == s.free && !(c.Continue? && s.threads[t].PutLink?)
    ensures IsStackStep(s, chain, Step(s, t, c))
  {
    QuietMove(s, chain, t, c);
    QuietKeepsInv(s, Step(s, t, c).state, chain, t);
  }

  lemma QuietKeepsInv(s: State, r: State, chain: seq<nat>, t: nat)
    requires Inv(s, chain) && r.free == s.free && r.next == s.next
    requires OwnsAsBefore(s, r, t) && LocalInv(r, r.threads[t])
    ensures Inv(r, chain)
  {
    PartitionStays(s, r, chain, t);
  }

  lemma LinkKeepsLocals(s: State, r: State, chain: seq<nat>, t: nat)
    requires Inv(s, chain) && t < |s.threads| && s.threads[t].PutLink?
    requires var l := s.threads[t];
      r.free == s.free && r.next == s.next[l.n := l.seen.node] && r.threads == s.threads[t := PutCas(l.n, l.seen)]
    ensures forall u :: 0 <= u < |r.threads| ==> LocalInv(r, r.threads[u])
  {
    forall u | 0 <= u < |r.threads| ensures LocalInv(r, r.threads[u]) {
      var l := s.threads[u];
      if u != t && l.GetCas? && l.seen.count == s.free.count {
        assert l.seen.node.value == chain[0];
      }
    }
  }

  lemma LinkKeepsList(s: State, r: State, chain: seq<nat>, n: nat, link: Option<nat>)
    requires IsFreeList(s, chain) && n < |s.next| && n !in chain
    requires r.free == s.free && r.next == s.next[n := link]
    ensures IsFreeList(r, chain)
  {
  }

  lemma LinkStep(s: State, chain: seq<nat>, t: nat, c: Choice)
    requires Inv(s, chain) && t < |s.threads| && s.threads[t].PutLink? && c.Continue?
    ensures IsStackStep(s, chain, Step(s, t, c))
  {
    var r, l := Step(s, t, c).state, s.threads[t];
    LinkKeepsLocals(s, r, chain, t);
    LinkKeepsList(s, r, chain, l.n, l.seen.node);
    PartitionStays(s, r, chain, t);
  }

  lemma TopAndRest(chain: seq<nat>)
    requires chain != [] && forall i, j :: 0 <= i < j < |chain| ==> chain[i] != chain[j]
    ensures chain == [chain[0]] + chain[1..] && chain[0] !in chain[1..]
  {
  }

  lemma PopList(s: State, r: State, chain: seq<nat>)
    requires IsFreeList(s, chain) && chain != []
    requires r.next == s.next && r.free.node == s.next[chain[0]]
    ensures IsFreeList(r, chain[1..])
  {
    var rest := chain[1..];
    forall i | 0 <= i < |rest| ensures r.next[rest[i]] == ElementAt(rest, i + 1) {
      assert rest[i] == chain[i + 1];
      assert ElementAt(rest, i + 1) == ElementAt(chain, i + 2);
    }
    assert r.free.node == ElementAt(chain, 1) == ElementAt(rest, 0);
  }

  lemma PopPartition(s: State, r: State, chain: seq<nat>, t: nat)
    requires chain != [] && chain[0] < |s.next| && Partition(s, chain)
    requires chain == [chain[0]] + chain[1..] && chain[0] !in chain[1..]
    requires t < |s.threads| && !Releasing(s.threads[t]) && r.threads == s.threads[t := Idle]
    requires |r.next| == |s.next| && r.held == s.held + {chain[0]}
    ensures Partition(r, chain[1..])
  {
    var rest := chain[1..];
    assert forall m :: m in chain <==> m == chain[0] || m in rest;
    forall m | 0 <= m < |r.next| ensures m in rest || m in r.held || BeingReleased(r, m) {
      if BeingReleased(s, m) {
        OthersStillRelease(s, r, t, m);
      }
    }
  }

  lemma GotStep(s: State, chain: seq<nat>, t: nat)
    requires Inv(s, chain) && t < |s.threads| && s.threads[t].GetCas? && s.free == s.threads[t].seen
    ensures IsStackStep(s, chain, Step(s, t, Continue(false)))
  {
    var r := Step(s, t, Continue(false)).state;
    TopAndRest(chain);
    PopList(s, r, chain);
    PopPartition(s, r, chain, t);
    assert forall u :: 0 <= u < |r.threads| ==> LocalInv(r, r.threads[u]);
  }

  lemma ReleasedStep(s: State, chain: seq<nat>, t: nat)
    requires Inv(s, chain) && t < |s.threads| && s.threads[t].PutCas? && s.free == s.threads[t].seen
    ensures IsStackStep(s, chain, Step(s, t, Continue(false)))
  {
    var r, n := Step(s, t, Continue(false)).state, s.threads[t].n;
    var chain' := [n] + chain;
    forall m | 0 <= m < |r.next| ensures m in chain' || m in r.held || BeingReleased(r, m) {
      if m != n && BeingReleased(s, m) {
        OthersStillRelease(s, r, t, m);
      }
    }
  }

  /** Every step of every thread is one operation of an atomic stack, or none. */
  lemma StepIsStackStep(s: State, chain: seq<nat>, t: nat, c: Choice)
    requires Inv(s, chain) && t < |s.threads|
    ensures IsStackStep(s, chain, Step(s, t, c))
  {
    var l := s.threads[t];
    if c.Continue? && l.PutLink? {
      LinkStep(s, chain, t, c);
    } else if c.Continue? && l.GetCas? && s.free == l.seen && !c.spurious {
      GotStep(s, chain, t);
    } else if c.Continue? && l.PutCas? && s.free == l.seen && !c.spurious {
      ReleasedStep(s, chain, t);
    } else {
      QuietStep(s, chain, t, c);
    }
  }

  /** The call that a thread is in. */
  datatype Call = NoCall | Getting | Putting(n: nat)

  function CallOf(l: Local): Call {
    match l
    case Idle => NoCall
    case GetLoad => Getting
    case GetNext(_) => Getting
    case GetCas(_, _) => Getting
    case PutLoad(n) => Putting(n)
    case PutLink(n, _) => Putting(n)
    case PutCas(n, _) => Putting(n)
  }

  /** The call that an idle thread makes; it can release only a node that is held. */
  function CallMade(held: set<nat>, c: Choice): Call {
    match c
    case CallGet => Getting
    case CallRelease(n) => if n in held then Putting(n) else NoCall
    case Continue(_) => NoCall
  }

  predicate Answers(call: Call, e: Event) {
    match call
    case NoCall => false
    case Getting => e.Got? || e.Exhausted?
    case Putting(n) => e == Released(n)
  }

  function NextCall(call: Call, held: set<nat>, c: Choice, e: Event): Call {
    if call == NoCall then CallMade(held, c) else if e == Silent then call else NoCall
  }

  /** Who holds what changes with the calls and answers alone: a release takes its node from its user at
      once, and a get gives the node that it answers. */
  function NextHeld(call: Call, held: set<nat>, c: Choice, e: Event): set<nat> {
    if call == NoCall && CallMade(held, c).Putting? then held - {CallMade(held, c).n}
    else if e.Got? then held + {e.n}
    else held
  }

  /** A call goes on until it answers, and answers only what such a call can. Nothing else moves. */
  lemma CallsAnswer(s: State, t: nat, c: Choice)
    requires t < |s.threads|
    ensures var o, call := Step(s, t, c), CallOf(s.threads[t]);
      && o.state.threads == s.threads[t := o.state.threads[t]]
      && CallOf(o.state.threads[t]) == NextCall(call, s.held, c, o.event)
      && o.state.held == NextHeld(call, s.held, c, o.event)
      && (o.event == Silent || Answers(call, o.event))
      && (call == NoCall ==> o.state.free == s.free && o.state.next == s.next)
      && (call != NoCall && !c.Continue? ==> o == Outcome(s, Silent))
  {
  }

  /** How far a thread is from its answer if it runs alone; the head it saw may be out of date. */
  function Rank(s: State, l: Local): nat {
    match l
    case Idle => 0
    case GetLoad => 3
    case GetNext(seen) => if seen == s.free then 2 else 4
    case GetCas(seen, _) => if seen == s.free then 1 else 3
    case PutLoad(_) => 3
    case PutLink(_, seen) => if seen == s.free then 2 else 4
    case PutCas(_, seen) => if seen == s.free then 1 else 3
  }

  /** Every step of a thread brings it one closer to its answer, if nobody moves in between; a swap that
      fails for no reason takes it back by one. */
  lemma StepLowersRank(s: State, t: nat, spurious: bool)
    requires t < |s.threads| && !s.threads[t].Idle? && LocalInv(s, s.threads[t])
    ensures var r := Step(s, t, Continue(spurious)).state;
      Rank(r, r.threads[t]) <= if spurious then Rank(s, s.threads[t]) + 1 else Rank(s, s.threads[t]) - 1
  {
  }

  /** One entry of a schedule: the thread that moves and its choice. */
  datatype Action = Action(tid: nat, choice: Choice)

  /** A run so far, with the call each thread has made and not been answered, the nodes that users hold by
      these calls and answers, and the free list an atomic stack would have after the same events. */
  datatype Run = Run(state: State, calls: seq<Call>, held: set<nat>, chain: seq<nat>)

  function Extend(r: Run, a: Action): Run {
    if a.tid >= |r.state.threads| then r
    else
      var o := Step(r.state, a.tid, a.choice);
      var call := if a.tid < |r.calls| then r.calls[a.tid] else NoCall;
      Run(o.state,
          if a.tid < |r.calls| then r.calls[a.tid := NextCall(call, r.held, a.choice, o.event)] else r.calls,
          NextHeld(call, r.held, a.choice, o.event),
          NextChain(r.chain, o.event))
  }

  /** The free list is that of an atomic stack, every thread is in the call that it made, and users hold
      what they were given and have not released. */
  ghost predicate IsStack(r: Run) {
    && Inv(r.state, r.chain) && r.held == r.state.held
    && |r.calls| == |r.state.threads|
    && forall t :: 0 <= t < |r.calls| ==> r.calls[t] == CallOf(r.state.threads[t])
  }

  function Execute(r: Run, schedule: seq<Action>): Run
    decreases schedule
  {
    if schedule == [] then r else Execute(Extend(r, schedule[0]), schedule[1..])
  }

  lemma ExtendKeepsStack(r: Run, a: Action)
    requires IsStack(r)
    ensures var r' := Extend(r, a);
      IsStack(r') && |r'.state.next| == |r.state.next| && |r'.state.threads| == |r.state.threads|
  {
    if a.tid < |r.state.threads| {
      StepIsStackStep(r.state, r.chain, a.tid, a.choice);
      CallsAnswer(r.state, a.tid, a.choice);
    }
  }

  lemma {:induction false} ExecuteKeepsStack(r: Run, schedule: seq<Action>)
    requires IsStack(r)
    ensures var r' := Execute(r, schedule);
      IsStack(r') && |r'.state.next| == |r.state.next| && |r'.state.threads| == |r.state.threads|
    decreases schedule
  {
    if schedule != [] {
      ExtendKeepsStack(r, schedule[0]);
      ExecuteKeepsStack(Extend(r, schedule[0]), schedule[1..]);
    }
  }

  function Begin(capacity: nat, threadCount: nat): Run
    requires capacity >= 1
  {
    Run(Init(capacity, threadCount), seq(threadCount, _ => NoCall), {}, seq(capacity, i requires 0 <= i => i))
  }

  lemma BeginIsStack(capacity: nat, threadCount: nat)
    requires capacity >= 1
    ensures IsStack(Begin(capacity, threadCount))
  {
    InitInv(capacity, threadCount);
  }

  /** Over every run of any number of threads, each arena node is in exactly one place: on the acyclic
      free list, held by one user, or in one thread's hands. So no node is ever handed out twice. */
  lemma NodesAreConserved(capacity: nat, threadCount: nat, schedule: seq<Action>)
    requires capacity >= 1
    ensures var r := Execute(Begin(capacity, threadCount), schedule);
      && |r.state.next| == capacity
      && IsFreeList(r.state, r.chain)
      && Partition(r.state, r.chain) && r.held == r.state.held
  {
    BeginIsStack(capacity, threadCount);
    ExecuteKeepsStack(Begin(capacity, threadCount), schedule);
  }

  /** Over every run, a node handed out by the next step is held by nobody and is being put back by
      nobody, and "exhausted" is answered only when every node is held or being put back. */
  lemma HandsOutOnlyFreeNodes(capacity: nat, threadCount: nat, schedule: seq<Action>, a: Action)
    requires capacity >= 1
    ensures var s := Execute(Begin(capacity, threadCount), schedule).state;
      a.tid < |s.threads| ==>
        var o := Step(s, a.tid, a.choice);
        && (o.event.Got? ==> o.event.n < capacity && o.event.n !in s.held && !BeingReleased(s, o.event.n) &&
                             o.state.held == s.held + {o.event.n})
        && (o.event.Exhausted? ==> forall n :: 0 <= n < capacity ==> n in s.held || BeingReleased(s, n))
  {
    BeginIsStack(capacity, threadCount);
    var r := Execute(Begin(capacity, threadCount), schedule);
    ExecuteKeepsStack(Begin(capacity, threadCount), schedule);
    if a.tid < |r.state.threads| {
      StepIsStackStep(r.state, r.chain, a.tid, a.choice);
      var o := Step(r.state, a.tid, a.choice);
      if o.event.Got? {
        assert r.chain[0] == o.event.n;
      }
    }
  }

  /** Over every run, a thread is idle exactly when it has made no call that is not answered, and the
      next step of any thread is silent or answers the very call that this thread has made. */
  lemma RunAnswersCalls(capacity: nat, threadCount: nat, schedule: seq<Action>, a: Action)
    requires capacity >= 1 && a.tid < threadCount
    ensures var r := Execute(Begin(capacity, threadCount), schedule);
      && |r.calls| == |r.state.threads| == threadCount
      && (r.state.threads[a.tid] == Idle <==> r.calls[a.tid] == NoCall)
      && var e := Step(r.state, a.tid, a.choice).event; e == Silent || Answers(r.calls[a.tid], e)
  {
    BeginIsStack(capacity, threadCount);
    ExecuteKeepsStack(Begin(capacity, threadCount), schedule);
    CallsAnswer(Execute(Begin(capacity, threadCount), schedule).state, a.tid, a.choice);
  }

  /** The schedule in which one thread runs alone. Each step says whether a swap of it fails for no
      reason. */
  function Solo(tid: nat, flags: seq<bool>): seq<Action> {
    if flags == [] then [] else [Action(tid, Continue(flags[0]))] + Solo(tid, flags[1..])
  }

  lemma {:induction false} IdleStays(r: Run, t: nat, flags: seq<bool>)
    requires IsStack(r) && t < |r.state.threads| && r.state.threads[t] == Idle
    ensures Execute(r, Solo(t, flags)) == r
    decreases |flags|
  {
    if flags != [] {
      assert Solo(t, flags)[1..] == Solo(t, flags[1..]);
      CallsAnswer(r.state, t, Continue(flags[0]));
      var r' := Extend(r, Action(t, Continue(flags[0])));
      assert r'.state.threads == r.state.threads && r'.calls == r.calls;
      IdleStays(r, t, flags[1..]);
    }
  }

  /** A thread that runs alone answers its call after a bounded number of steps, from any state and
      however its swaps fail. */
  lemma {:induction false} SoloCallAnswers(r: Run, t: nat, flags: seq<bool>)
    requires IsStack(r) && t < |r.state.threads|
    requires |flags| >= Rank(r.state, r.state.threads[t]) + 2 * Failures(flags)
    ensures var s' := Execute(r, Solo(t, flags)).state; t < |s'.threads| && s'.threads[t] == Idle
    decreases |flags|
  {
    if r.state.threads[t] == Idle {
      IdleStays(r, t, flags);
    } else {
      assert Solo(t, flags)[1..] == Solo(t, flags[1..]);
      ExtendKeepsStack(r, Action(t, Continue(flags[0])));
      StepLowersRank(r.state, t, flags[0]);
      SoloCallAnswers(Extend(r, Action(t, Continue(flags[0]))), t, flags[1..]);
    }
  }

  /** What a call that runs alone does to the run: a release puts its node on top of the free list, and a
      get takes the top of the list, or nothing from an empty one. */
  ghost predicate SoloResult(r: Run, r': Run, t: nat, call: Call) {
    && IsStack(r') && |r'.state.threads| == |r.state.threads|
    && t < |r.calls| && r'.calls == r.calls[t := NoCall]
    && match call
       case NoCall => r' == r
       case Getting =>
         if r.chain == [] then r'.chain == [] && r'.held == r.held
         else r'.chain == r.chain[1..] && r'.held == r.held + {r.chain[0]}
       case Putting(n) => r'.chain == [n] + r.chain && r'.held == r.held
  }

  lemma {:induction false} SoloCallTakesEffect(r: Run, t: nat, flags: seq<bool>)
    requires IsStack(r) && t < |r.state.threads|
    requires |flags| >= Rank(r.state, r.state.threads[t]) + 2 * Failures(flags)
    ensures t < |r.calls| && SoloResult(r, Execute(r, Solo(t, flags)), t, r.calls[t])
    decreases |flags|
  {
    if r.state.threads[t] == Idle {
      IdleStays(r, t, flags);
      assert r.calls[t := NoCall] == r.calls;
    } else {
      var r', o := Extend(r, Action(t, Continue(flags[0]))), Step(r.state, t, Continue(flags[0]));
      assert Solo(t, flags)[1..] == Solo(t, flags[1..]);
      ExtendKeepsStack(r, Action(t, Continue(flags[0])));
      StepIsStackStep(r.state, r.chain, t, Continue(flags[0]));
      CallsAnswer(r.state, t, Continue(flags[0]));
      StepLowersRank(r.state, t, flags[0]);
      if o.event == Silent {
        SoloCallTakesEffect(r', t, flags[1..]);
        assert r'.calls[t := NoCall] == r.calls[t := NoCall];
      } else {
        IdleStays(r', t, flags[1..]);
      }
    }
  }

  /** A call made by an idle thread that then runs alone. */
  function CallAlone(r: Run, t: nat, c: Choice, flags: seq<bool>): Run {
    Execute(r, [Action(t, c)] + Solo(t, flags))
  }

  lemma StartsWith(r: Run, a: Action, rest: seq<Action>)
    ensures Execute(r, [a] + rest) == Execute(Extend(r, a), rest)
  {
    assert ([a] + rest)[1..] == rest;
  }

  lemma CallIsMade(r: Run, t: nat, c: Choice)
    requires IsStack(r) && t < |r.state.threads| && r.state.threads[t] == Idle && !c.Continue?
    ensures var made := Extend(r, Action(t, c));
      && IsStack(made) && |made.state.threads| == |r.state.threads| && Rank(made.state, made.state.threads[t]) <= 3
      && made.chain == r.chain && made.held == NextHeld(NoCall, r.held, c, Silent)
      && made.calls == r.calls[t := CallMade(r.held, c)]
  {
    ExtendKeepsStack(r, Action(t, c));
    CallsAnswer(r.state, t, c);
    assert r.calls[t] == NoCall;
  }

  lemma CallAloneTakesEffect(r: Run, t: nat, c: Choice, flags: seq<bool>)
    requires IsStack(r) && t < |r.state.threads| && r.state.threads[t] == Idle
    requires !c.Continue? && |flags| >= 3 + 2 * Failures(flags)
    ensures var made := Extend(r, Action(t, c));
      && t < |made.calls| && SoloResult(made, CallAlone(r, t, c, flags), t, CallMade(r.held, c))
      && made.chain == r.chain && made.held == NextHeld(NoCall, r.held, c, Silent)
      && CallAlone(r, t, c, flags).calls == r.calls && |made.state.threads| == |r.state.threads|
  {
    var made := Extend(r, Action(t, c));
    CallIsMade(r, t, c);
    StartsWith(r, Action(t, c), Solo(t, flags));
    SoloCallTakesEffect(made, t, flags);
    assert r.calls[t] == NoCall && made.calls[t := NoCall] == r.calls;
  }

  lemma ReleaseAlone(r: Run, t: nat, n: nat, flags: seq<bool>)
    requires IsStack(r) && t < |r.state.threads| && r.state.threads[t] == Idle && n in r.held
    requires |flags| >= 3 + 2 * Failures(flags)
    ensures var r' := CallAlone(r, t, CallRelease(n), flags);
      && IsStack(r') && |r'.state.threads| == |r.state.threads|
      && r'.calls == r.calls && r'.chain == [n] + r.chain && r'.held == r.held - {n}
  {
    CallAloneTakesEffect(r, t, CallRelease(n), flags);
  }

  lemma GetAlone(r: Run, t: nat, flags: seq<bool>)
    requires IsStack(r) && t < |r.state.threads| && r.state.threads[t] == Idle && r.chain != []
    requires |flags| >= 3 + 2 * Failures(flags)
    ensures var r' := CallAlone(r, t, CallGet, flags);
      && IsStack(r') && |r'.state.threads| == |r.state.threads|
      && r'.calls == r.calls && r'.chain == r.chain[1..] && r'.held == r.held + {r.chain[0]}
  {
    CallAloneTakesEffect(r, t, CallGet, flags);
  }

  /** A node that is released comes back: after a release and then a get, each run alone, the user of the
      get holds the node that was released, and the free list is as before. */
  lemma ReleasedNodeComesBack(r: Run, t: nat, n: nat, release: seq<bool>, get: seq<bool>)
    requires IsStack(r) && t < |r.state.threads| && r.state.threads[t] == Idle && n in r.held
    requires |release| >= 3 + 2 * Failures(release) && |get| >= 3 + 2 * Failures(get)
    ensures var released := CallAlone(r, t, CallRelease(n), release);
      var r' := CallAlone(released, t, CallGet, get);
      && released.chain == [n] + r.chain && released.held == r.held - {n}
      && r'.chain == r.chain && r'.held == r.held && r'.calls == r.calls
  {
    ReleaseAlone(r, t, n, release);
    var released := CallAlone(r, t, CallRelease(n), release);
    assert CallOf(released.state.threads[t]) == released.calls[t] == NoCall;
    GetAlone(released, t, get);
    assert ([n] + r.chain)[1..] == r.chain;
  }
}
