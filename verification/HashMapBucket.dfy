/** One bucket of the lock-free hash map of `cyber/base/atomic_hash_map.h`: a linked list of entries,
    sorted by key, that only ever grows. One step is one atomic load, store or compare-and-swap of one
    thread; comparing immutable keys and allocating are part of the step before them. */
module HashMapBucket {
  import opened Helpers

  /** A heap-allocated value. Swaps compare the pointer, that is the id. */
  datatype Box<V> = Box(id: nat, v: V)

  datatype Entry<V> = Entry(key: int, box: Box<V>, next: Option<nat>)

  datatype Op<V> =
    | Has(key: int)
    | Get(key: int)
    | Insert(key: int, v: V, entry: Option<nat>, box: Option<Box<V>>)

  /** Where a thread is. Insert carries the entry and the value it allocated in earlier attempts. */
  datatype Local<V> =
    | Idle
    | Begin(op: Op<V>)
    | Seek(op: Op<V>, cur: nat)
    | GetValue(op: Op<V>, target: nat)
    | LoadValue(op: Op<V>, target: nat)
    | SwapValue(op: Op<V>, target: nat, seen: Box<V>)
    | StoreNext(op: Op<V>, prev: nat, next: Option<nat>)
    | SwapNext(op: Op<V>, prev: nat, next: Option<nat>)

  /** `entries` is the memory of all entries ever allocated; entry 0 is the sentinel. */
  datatype State<V> = State(entries: seq<Entry<V>>, boxes: nat, threads: seq<Local<V>>)

  datatype Choice<V> = CallHas(key: int) | CallGet(key: int) | CallInsert(key: int, v: V) | Continue

  datatype Event<V> = Silent | Answered(key: int, present: bool) | GotValue(key: int, v: V) | Stored(key: int, v: V)

  datatype Outcome<V> = Outcome(state: State<V>, event: Event<V>)

  function Goto<V>(s: State<V>, t: nat, l: Local<V>): State<V>
    requires t < |s.threads|
  {
    s.(threads := s.threads[t := l])
  }

  /** What Find does with the link it has just loaded from `prev`, up to its next shared access. */
  function Arrive<V>(s: State<V>, t: nat, op: Op<V>, prev: nat, link: Option<nat>): (o: Outcome<V>)
    requires t < |s.threads|
    ensures |o.state.threads| == |s.threads|
  {
    if link.Some? && link.value < |s.entries| && s.entries[link.value].key < op.key then
      Outcome(Goto(s, t, Seek(op, link.value)), Silent)
    else if link.Some? && link.value < |s.entries| && s.entries[link.value].key == op.key then
      match op
      case Has(key) => Outcome(Goto(s, t, Idle), Answered(key, true))
      case Get(key) => Outcome(Goto(s, t, GetValue(op, link.value)), Silent)
      case Insert(_, v, _, box) =>
        var mine := if box.Some? then box else Some(Box(s.boxes, v));
        Outcome(Goto(s, t, LoadValue(op.(box := mine), link.value)).(boxes := s.boxes + 1), Silent)
    else
      match op
      case Insert(key, v, entry, _) =>
        var mine := if entry.Some? then entry else Some(|s.entries|);
        var memory := if entry.Some? then s.entries else s.entries + [Entry(key, Box(s.boxes, v), None)];
        Outcome(Goto(s, t, StoreNext(op.(entry := mine), prev, link)).(entries := memory, boxes := s.boxes + 1), Silent)
      case _ => Outcome(Goto(s, t, Idle), Answered(op.key, false))
  }

  function Step<V(==)>(s: State<V>, t: nat, c: Choice<V>): (o: Outcome<V>)
    requires t < |s.threads|
    ensures |o.state.threads| == |s.threads|
  {
    var M := s.entries;
    match (s.threads[t], c)
    case (Idle, CallHas(key)) => Outcome(Goto(s, t, Begin(Has(key))), Silent)
    case (Idle, CallGet(key)) => Outcome(Goto(s, t, Begin(Get(key))), Silent)
    case (Idle, CallInsert(key, v)) => Outcome(Goto(s, t, Begin(Insert(key, v, None, None))), Silent)
    case (Begin(op), Continue) => if |M| == 0 then Outcome(s, Silent) else Arrive(s, t, op, 0, M[0].next)
    case (Seek(op, cur), Continue) => if cur >= |M| then Outcome(s, Silent) else Arrive(s, t, op, cur, M[cur].next)
    case (GetValue(op, target), Continue) =>
      if target >= |M| then Outcome(s, Silent)
      else Outcome(Goto(s, t, Idle), GotValue(op.key, M[target].box.v))
    case (LoadValue(op, target), Continue) =>
      if target >= |M| then Outcome(s, Silent)
      else Outcome(Goto(s, t, SwapValue(op, target, M[target].box)), Silent)
    case (SwapValue(op, target, seen), Continue) =>
      if target >= |M| || !op.Insert? || op.box.None? then Outcome(s, Silent)
      else if M[target].box.id == seen.id
      then Outcome(Goto(s, t, Idle).(entries := M[target := M[target].(box := op.box.value)]), Stored(op.key, op.v))
      else Outcome(Goto(s, t, Begin(op)), Silent)
    case (StoreNext(op, prev, next), Continue) =>
      if !op.Insert? || op.entry.None? || op.entry.value >= |M| then Outcome(s, Silent)
      else
        var e := op.entry.value;
        Outcome(Goto(s, t, SwapNext(op, prev, next)).(entries := M[e := M[e].(next := next)]), Silent)
    case (SwapNext(op, prev, next), Continue) =>
      if !op.Insert? || op.entry.None? || prev >= |M| then Outcome(s, Silent)
      else if M[prev].next == next
      then Outcome(Goto(s, t, Idle).(entries := M[prev := M[prev].(next := op.entry)]), Stored(op.key, op.v))
      else Outcome(Goto(s, t, Begin(op)), Silent)
    case _ => Outcome(s, Silent)
  }

  /** `chain` lists the linked entries from the sentinel on, with strictly growing keys after it. */
  ghost predicate IsSortedList<V>(M: seq<Entry<V>>, chain: seq<nat>) {
    && |chain| > 0 && chain[0] == 0
    && (forall i :: 0 <= i < |chain| ==> chain[i] < |M|)
    && (forall i, j :: 0 <= i < j < |chain| ==> chain[i] != chain[j])
    && (forall i {:trigger M[chain[i]]} :: 0 <= i < |chain| ==> M[chain[i]].next == ElementAt(chain, i + 1))
    && (forall i, j {:trigger M[chain[i]], M[chain[j]]} :: 1 <= i < j < |chain| ==>
          M[chain[i]].key < M[chain[j]].key)
  }

  ghost predicate Listed<V>(M: seq<Entry<V>>, chain: seq<nat>, key: int) {
    exists i {:trigger M[chain[i]]} :: 1 <= i < |chain| && chain[i] < |M| && M[chain[i]].key == key
  }

  /** The list holds exactly the plain map m, one entry per key. */
  ghost predicate Represents<V>(M: seq<Entry<V>>, chain: seq<nat>, m: map<int, V>) {
    && (forall i {:trigger M[chain[i]]} :: 1 <= i < |chain| ==>
          chain[i] < |M| && M[chain[i]].key in m && m[M[chain[i]].key] == M[chain[i]].box.v)
    && (forall key {:trigger Listed(M, chain, key)} :: key in m ==> Listed(M, chain, key))
  }

  /** The entry an Insert has allocated and not yet linked. */
  function Private<V>(l: Local<V>): Option<nat> {
    if !l.Idle? && l.op.Insert? then l.op.entry else None
  }

  ghost predicate PrivateInv<V>(M: seq<Entry<V>>, chain: seq<nat>, op: Op<V>) {
    op.Insert? ==>
      && (op.entry.Some? ==>
            var e := op.entry.value;
            0 < e < |M| && e !in chain && M[e].key == op.key && M[e].box.v == op.v)
      && (op.box.Some? ==> op.box.value.v == op.v)
  }

  /** An insertion point found earlier: prev is linked and sorts before the key, next sorts after it. */
  ghost predicate Between<V>(M: seq<Entry<V>>, chain: seq<nat>, key: int, prev: nat, next: Option<nat>) {
    && prev in chain && prev < |M| && (prev == 0 || M[prev].key < key)
    && (next.Some? ==> next.value in chain && next.value < |M| && M[next.value].key > key)
  }

  ghost predicate LocalInv<V>(M: seq<Entry<V>>, chain: seq<nat>, l: Local<V>) {
    match l
    case Idle => true
    case Begin(op) => PrivateInv(M, chain, op)
    case Seek(op, cur) => PrivateInv(M, chain, op) && cur in chain && 0 < cur < |M| && M[cur].key < op.key
    case GetValue(op, target) => op.Get? && target in chain && 0 < target < |M| && M[target].key == op.key
    case LoadValue(op, target) =>
      PrivateInv(M, chain, op) && op.Insert? && op.box.Some? &&
      target in chain && 0 < target < |M| && M[target].key == op.key
    case SwapValue(op, target, _) =>
      PrivateInv(M, chain, op) && op.Insert? && op.box.Some? &&
      target in chain && 0 < target < |M| && M[target].key == op.key
    case StoreNext(op, prev, next) =>
      PrivateInv(M, chain, op) && op.Insert? && op.entry.Some? && Between(M, chain, op.key, prev, next)
    case SwapNext(op, prev, next) =>
      PrivateInv(M, chain, op) && op.Insert? && op.entry.Some? && Between(M, chain, op.key, prev, next) &&
      M[op.entry.value].next == next
  }

  /** Every thread is where it should be, and no two have the same private entry. */
  ghost predicate ThreadsInv<V>(M: seq<Entry<V>>, chain: seq<nat>, threads: seq<Local<V>>) {
    && (forall t :: 0 <= t < |threads| ==> LocalInv(M, chain, threads[t]))
    && (forall t, u :: 0 <= t < u < |threads| && Private(threads[t]).Some? ==>
          Private(threads[t]) != Private(threads[u]))
  }

  ghost predicate Inv<V>(s: State<V>, chain: seq<nat>, m: map<int, V>) {
    && IsSortedList(s.entries, chain)
    && Represents(s.entries, chain, m)
    && ThreadsInv(s.entries, chain, s.threads)
  }

  lemma KeysGrow<V>(M: seq<Entry<V>>, chain: seq<nat>, i: nat, j: nat)
    requires IsSortedList(M, chain) && 1 <= i <= j < |chain|
    ensures M[chain[i]].key <= M[chain[j]].key && (i < j ==> M[chain[i]].key < M[chain[j]].key)
  {
  }

  /** Finding the key's place in the list settles whether the map has it. */
  lemma PlaceDecides<V>(M: seq<Entry<V>>, chain: seq<nat>, m: map<int, V>, key: int, prev: nat)
    requires IsSortedList(M, chain) && Represents(M, chain, m)
    requires prev in chain && (prev == 0 || M[prev].key < key)
    ensures var next := M[prev].next;
      if next.None? then key !in m
      else next.value in chain && 0 < next.value < |M| &&
           (M[next.value].key > key ==> key !in m) && (M[next.value].key == key ==> key in m)
  {
    var i := IndexOf(chain, prev);
    assert M[chain[i]].next == ElementAt(chain, i + 1);
    if key in m {
      assert Listed(M, chain, key);
      var j :| 1 <= j < |chain| && chain[j] < |M| && M[chain[j]].key == key;
      if j > i {
        KeysGrow(M, chain, i + 1, j);
      }
    }
  }

  function IndexOf(chain: seq<nat>, e: nat): (i: nat)
    requires e in chain
    ensures i < |chain| && chain[i] == e
  {
    if chain[0] == e then 0 else 1 + IndexOf(chain[1..], e)
  }

  /** The list with entry e linked right after prev. */
  function LinkAfter(chain: seq<nat>, prev: nat, e: nat): seq<nat>
    requires prev in chain
  {
    var i := IndexOf(chain, prev);
    chain[..i + 1] + [e] + chain[i + 1..]
  }

  /** Whether this step links a new entry into the list. */
  predicate Links<V>(s: State<V>, t: nat, c: Choice<V>)
    requires t < |s.threads|
  {
    var l := s.threads[t];
    c.Continue? && l.SwapNext? && l.op.Insert? && l.op.entry.Some? && l.prev < |s.entries| &&
    s.entries[l.prev].next == l.next
  }

  function NextChain<V>(s: State<V>, t: nat, c: Choice<V>, chain: seq<nat>): seq<nat>
    requires t < |s.threads|
  {
    var l := s.threads[t];
    if Links(s, t, c) && l.prev in chain then LinkAfter(chain, l.prev, l.op.entry.value) else chain
  }

  function NextMap<V>(m: map<int, V>, e: Event<V>): map<int, V> {
    match e
    case Stored(key, v) => m[key := v]
    case _ => m
  }

  /** The outcome is that of one operation of an atomic map, or of none. */
  ghost predicate IsMapStep<V>(chain': seq<nat>, m: map<int, V>, o: Outcome<V>) {
    && Inv(o.state, chain', NextMap(m, o.event))
    && match o.event
       case Answered(key, present) => present == (key in m)
       case GotValue(key, v) => key in m && m[key] == v
       case _ => true
  }

  /** M' differs from M only in new entries and in links and values of unlinked entries. */
  ghost predicate SameList<V>(M: seq<Entry<V>>, M': seq<Entry<V>>, chain: seq<nat>) {
    && |M| <= |M'|
    && (forall i :: 0 <= i < |M| ==> M'[i].key == M[i].key)
    && (forall i :: 0 <= i < |chain| ==> chain[i] < |M| && M'[chain[i]] == M[chain[i]])
  }

  lemma FrameList<V>(M: seq<Entry<V>>, M': seq<Entry<V>>, chain: seq<nat>, m: map<int, V>)
    requires IsSortedList(M, chain) && Represents(M, chain, m) && SameList(M, M', chain)
    ensures IsSortedList(M', chain) && Represents(M', chain, m)
  {
    forall key | key in m ensures Listed(M', chain, key) {
      assert Listed(M, chain, key);
      var i :| 1 <= i < |chain| && chain[i] < |M| && M[chain[i]].key == key;
      assert M'[chain[i]].key == key;
    }
  }

  lemma FrameLocal<V>(M: seq<Entry<V>>, M': seq<Entry<V>>, chain: seq<nat>, chain': seq<nat>, l: Local<V>)
    requires LocalInv(M, chain, l)
    requires |M| <= |M'| && forall i :: 0 <= i < |M| ==> M'[i].key == M[i].key
    requires forall e :: e in chain ==> e in chain'
    requires Private(l).Some? ==> var e := Private(l).value; e < |M| && M'[e] == M[e] && e !in chain'
    ensures LocalInv(M', chain', l)
  {
  }

  lemma PrivateBounds<V>(M: seq<Entry<V>>, chain: seq<nat>, threads: seq<Local<V>>, u: nat)
    requires ThreadsInv(M, chain, threads) && u < |threads| && Private(threads[u]).Some?
    ensures 0 < Private(threads[u]).value < |M| && Private(threads[u]).value !in chain
  {
    assert LocalInv(M, chain, threads[u]);
  }

  lemma PrivateApart<V>(M: seq<Entry<V>>, chain: seq<nat>, threads: seq<Local<V>>, t: nat, u: nat)
    requires ThreadsInv(M, chain, threads) && t < |threads| && u < |threads| && u != t
    requires Private(threads[u]).Some?
    ensures 0 < Private(threads[u]).value < |M| && Private(threads[u]).value !in chain
    ensures Private(threads[u]) != Private(threads[t])
  {
    PrivateBounds(M, chain, threads, u);
  }

  /** One thread moves. It changes at most its own entry and linked entries, and it keeps its own entry,
      gives it up or has a new one. Then everybody else is unaffected. */
  lemma ThreadsKeep<V>(M: seq<Entry<V>>, M': seq<Entry<V>>, chain: seq<nat>, threads: seq<Local<V>>,
                       t: nat, l: Local<V>)
    requires ThreadsInv(M, chain, threads) && t < |threads| && LocalInv(M', chain, l)
    requires |M| <= |M'| && forall i :: 0 <= i < |M| ==> M'[i].key == M[i].key
    requires forall i :: 0 <= i < |M| && i !in chain && Private(threads[t]) != Some(i) ==> M'[i] == M[i]
    requires Private(l).Some? ==> Private(l) == Private(threads[t]) || Private(l).value >= |M|
    ensures ThreadsInv(M', chain, threads[t := l])
  {
    var threads' := threads[t := l];
    forall u | 0 <= u < |threads'| ensures LocalInv(M', chain, threads'[u]) {
      if u != t {
        if Private(threads[u]).Some? {
          PrivateApart(M, chain, threads, t, u);
        }
        FrameLocal(M, M', chain, chain, threads[u]);
      }
    }
    forall a, b | 0 <= a < b < |threads'| && Private(threads'[a]).Some?
      ensures Private(threads'[a]) != Private(threads'[b])
    {
      var u := if a == t then b else a;
      if Private(threads[u]).Some? {
        PrivateBounds(M, chain, threads, u);
      }
    }
  }

  lemma QuietStep<V>(s: State<V>, chain: seq<nat>, m: map<int, V>, t: nat, l: Local<V>, boxes: nat)
    requires Inv(s, chain, m) && t < |s.threads|
    requires LocalInv(s.entries, chain, l) && (Private(l) == None || Private(l) == Private(s.threads[t]))
    ensures Inv(Goto(s, t, l).(boxes := boxes), chain, m)
  {
    ThreadsKeep(s.entries, s.entries, chain, s.threads, t, l);
  }

  lemma FreshEntry<V>(M: seq<Entry<V>>, chain: seq<nat>, op: Op<V>, prev: nat, next: Option<nat>, box: nat)
    requires op.Insert? && PrivateInv(M, chain, op) && Between(M, chain, op.key, prev, next)
    requires |M| > 0 && |M| !in chain
    ensures var M' := M + [Entry(op.key, Box(box, op.v), None)];
      LocalInv(M', chain, StoreNext(op.(entry := Some(|M|)), prev, next))
  {
  }

  /** A thread that allocates an entry nobody else can see keeps the list and everybody's place. */
  lemma AddEntry<V>(s: State<V>, r: State<V>, chain: seq<nat>, m: map<int, V>, t: nat, l: Local<V>, e: Entry<V>)
    requires Inv(s, chain, m) && t < |s.threads|
    requires r.entries == s.entries + [e] && r.threads == s.threads[t := l]
    requires Private(l) == Some(|s.entries|) && LocalInv(r.entries, chain, l)
    ensures Inv(r, chain, m)
  {
    ThreadsKeep(s.entries, r.entries, chain, s.threads, t, l);
    FrameList(s.entries, r.entries, chain, m);
  }

  lemma AllocateStep<V>(s: State<V>, chain: seq<nat>, m: map<int, V>, t: nat, op: Op<V>, prev: nat)
    requires Inv(s, chain, m) && t < |s.threads| && PrivateInv(s.entries, chain, op)
    requires op.Insert? && op.entry.None?
    requires prev in chain && (prev == 0 || s.entries[prev].key < op.key)
    requires var next := s.entries[prev].next;
      next.Some? ==> next.value in chain && s.entries[next.value].key > op.key
    ensures var o := Arrive(s, t, op, prev, s.entries[prev].next);
      o.event == Silent && Inv(o.state, chain, m)
  {
    var next, e := s.entries[prev].next, Entry(op.key, Box(s.boxes, op.v), None);
    var r, l := Arrive(s, t, op, prev, next).state, StoreNext(op.(entry := Some(|s.entries|)), prev, next);
    FreshEntry(s.entries, chain, op, prev, next, s.boxes);
    AddEntry(s, r, chain, m, t, l, e);
  }

  lemma ArriveStep<V>(s: State<V>, chain: seq<nat>, m: map<int, V>, t: nat, op: Op<V>, prev: nat)
    requires Inv(s, chain, m) && t < |s.threads| && PrivateInv(s.entries, chain, op)
    requires !s.threads[t].Idle? && s.threads[t].op == op
    requires prev in chain && (prev == 0 || s.entries[prev].key < op.key)
    ensures IsMapStep(chain, m, Arrive(s, t, op, prev, s.entries[prev].next))
  {
    PlaceDecides(s.entries, chain, m, op.key, prev);
    var o, link := Arrive(s, t, op, prev, s.entries[prev].next), s.entries[prev].next;
    if op.Insert? && op.entry.None? && (link.None? || s.entries[link.value].key > op.key) {
      AllocateStep(s, chain, m, t, op, prev);
    } else {
      QuietStep(s, chain, m, t, o.state.threads[t], o.state.boxes);
      assert o.state == Goto(s, t, o.state.threads[t]).(boxes := o.state.boxes);
    }
  }

  /** A thread that writes the link of its own entry keeps the list and everybody's place. */
  lemma RelinkEntry<V>(s: State<V>, r: State<V>, chain: seq<nat>, m: map<int, V>, t: nat, l: Local<V>, e: nat,
                       next: Option<nat>)
    requires Inv(s, chain, m) && t < |s.threads| && Private(s.threads[t]) == Private(l) == Some(e)
    requires e < |s.entries| && r.entries == s.entries[e := s.entries[e].(next := next)]
    requires r.threads == s.threads[t := l] && LocalInv(r.entries, chain, l)
    ensures Inv(r, chain, m)
  {
    ThreadsKeep(s.entries, r.entries, chain, s.threads, t, l);
    PrivateBounds(s.entries, chain, s.threads, t);
    FrameList(s.entries, r.entries, chain, m);
  }

  lemma StoreNextStep<V>(s: State<V>, chain: seq<nat>, m: map<int, V>, t: nat)
    requires Inv(s, chain, m) && t < |s.threads| && s.threads[t].StoreNext?
    ensures IsMapStep(chain, m, Step(s, t, Continue))
  {
    var l := s.threads[t];
    PrivateBounds(s.entries, chain, s.threads, t);
    RelinkEntry(s, Step(s, t, Continue).state, chain, m, t, SwapNext(l.op, l.prev, l.next), l.op.entry.value, l.next);
  }

  lemma DistinctKeys<V>(M: seq<Entry<V>>, chain: seq<nat>, i: nat, j: nat)
    requires IsSortedList(M, chain) && 1 <= i < |chain| && 1 <= j < |chain| && i != j
    ensures M[chain[i]].key != M[chain[j]].key && chain[i] != chain[j]
  {
    if i < j { KeysGrow(M, chain, i, j); } else { KeysGrow(M, chain, j, i); }
  }

  lemma SetValueSorted<V>(M: seq<Entry<V>>, M': seq<Entry<V>>, chain: seq<nat>, e: nat, box: Box<V>)
    requires IsSortedList(M, chain)
    requires e < |M| && M' == M[e := M[e].(box := box)]
    ensures IsSortedList(M', chain)
  {
    forall i | 0 <= i < |chain| ensures M'[chain[i]].next == ElementAt(chain, i + 1) {
      assert M[chain[i]].next == ElementAt(chain, i + 1);
    }
    forall i, j | 1 <= i < j < |chain| ensures M'[chain[i]].key < M'[chain[j]].key {
      KeysGrow(M, chain, i, j);
    }
  }

  lemma SetValue<V>(M: seq<Entry<V>>, M': seq<Entry<V>>, chain: seq<nat>, m: map<int, V>, k: nat, box: Box<V>)
    requires IsSortedList(M, chain) && Represents(M, chain, m)
    requires 1 <= k < |chain| && M' == M[chain[k] := M[chain[k]].(box := box)]
    ensures Represents(M', chain, m[M[chain[k]].key := box.v])
  {
    var key, m' := M[chain[k]].key, m[M[chain[k]].key := box.v];
    forall i | 1 <= i < |chain| ensures M'[chain[i]].key in m' && m'[M'[chain[i]].key] == M'[chain[i]].box.v {
      assert M[chain[i]].key in m && m[M[chain[i]].key] == M[chain[i]].box.v;
      if i != k {
        DistinctKeys(M, chain, i, k);
      }
    }
    SetValueListed(M, M', chain, m, k);
    forall x | x in m' ensures Listed(M', chain, x) {
      assert x in m || x == key;
    }
  }

  lemma SetValueListed<V>(M: seq<Entry<V>>, M': seq<Entry<V>>, chain: seq<nat>, m: map<int, V>, k: nat)
    requires Represents(M, chain, m) && 1 <= k < |chain| && chain[k] < |M| == |M'|
    requires forall i :: 0 <= i < |M| ==> M'[i].key == M[i].key
    ensures Listed(M', chain, M[chain[k]].key)
    ensures forall x :: x in m ==> Listed(M', chain, x)
  {
    assert M'[chain[k]].key == M[chain[k]].key;
    forall x | x in m ensures Listed(M', chain, x) {
      assert Listed(M, chain, x);
      var i :| 1 <= i < |chain| && chain[i] < |M| && M[chain[i]].key == x;
      assert M'[chain[i]].key == x;
    }
  }

  lemma SwapsValue<V>(s: State<V>, r: State<V>, chain: seq<nat>, m: map<int, V>, t: nat, target: nat, box: Box<V>)
    requires Inv(s, chain, m) && t < |s.threads| && target in chain && 0 < target < |s.entries|
    requires r.entries == s.entries[target := s.entries[target].(box := box)] && r.threads == s.threads[t := Idle]
    ensures Inv(r, chain, m[s.entries[target].key := box.v])
  {
    ThreadsKeep(s.entries, r.entries, chain, s.threads, t, Idle);
    SetValueSorted(s.entries, r.entries, chain, target, box);
    SetValue(s.entries, r.entries, chain, m, IndexOf(chain, target), box);
  }

  lemma SwapValueStep<V>(s: State<V>, chain: seq<nat>, m: map<int, V>, t: nat)
    requires Inv(s, chain, m) && t < |s.threads| && s.threads[t].SwapValue?
    requires s.entries[s.threads[t].target].box.id == s.threads[t].seen.id
    ensures IsMapStep(chain, m, Step(s, t, Continue))
  {
    var l := s.threads[t];
    assert LocalInv(s.entries, chain, l);
    SwapsValue(s, Step(s, t, Continue).state, chain, m, t, l.target, l.op.box.value);
  }

  lemma LinkIndex(chain: seq<nat>, e: nat, i: nat)
    requires i < |chain| && e !in chain
    requires forall a, b :: 0 <= a < b < |chain| ==> chain[a] != chain[b]
    ensures var c := chain[..i + 1] + [e] + chain[i + 1..];
      && |c| == |chain| + 1 && c[i + 1] == e
      && (forall j :: 0 <= j <= i ==> c[j] == chain[j])
      && (forall j :: i + 2 <= j < |c| ==> c[j] == chain[j - 1])
      && (forall a, b :: 0 <= a < b < |c| ==> c[a] != c[b])
  {
  }

  lemma LinkedKeys<V>(M: seq<Entry<V>>, chain: seq<nat>, i: nat, e: nat, a: nat, b: nat)
    requires IsSortedList(M, chain) && i < |chain| && e < |M| && e !in chain
    requires i == 0 || M[chain[i]].key < M[e].key
    requires i + 1 < |chain| ==> M[e].key < M[chain[i + 1]].key
    requires 1 <= a < b <= |chain|
    ensures var c := chain[..i + 1] + [e] + chain[i + 1..];
      c[a] < |M| && c[b] < |M| && M[c[a]].key < M[c[b]].key
  {
    LinkIndex(chain, e, i);
    if a == i + 1 {
      KeysGrow(M, chain, i + 1, b - 1);
    } else if b == i + 1 {
      KeysGrow(M, chain, a, i);
    } else {
      KeysGrow(M, chain, if a <= i then a else a - 1, if b <= i then b else b - 1);
    }
  }

  /** A swap that finds the link unchanged inserts between two neighbours, so the order stays. */
  lemma LinkedSorted<V>(M: seq<Entry<V>>, M': seq<Entry<V>>, chain: seq<nat>, i: nat, e: nat)
    requires IsSortedList(M, chain) && i < |chain| && 0 < e < |M| && e !in chain
    requires i == 0 || M[chain[i]].key < M[e].key
    requires i + 1 < |chain| ==> M[e].key < M[chain[i + 1]].key
    requires M[e].next == ElementAt(chain, i + 1) && M' == M[chain[i] := M[chain[i]].(next := Some(e))]
    ensures IsSortedList(M', chain[..i + 1] + [e] + chain[i + 1..])
  {
    var c := chain[..i + 1] + [e] + chain[i + 1..];
    LinkIndex(chain, e, i);
    forall j | 0 <= j < |c| ensures c[j] < |M'| && M'[c[j]].next == ElementAt(c, j + 1) {
      if j < i {
        assert M[chain[j]].next == ElementAt(chain, j + 1);
      } else if j > i + 1 {
        assert M[chain[j - 1]].next == ElementAt(chain, j);
      }
    }
    forall a, b | 1 <= a < b < |c| ensures M'[c[a]].key < M'[c[b]].key {
      LinkedKeys(M, chain, i, e, a, b);
    }
  }

  lemma LinkEntry<V>(M: seq<Entry<V>>, M': seq<Entry<V>>, chain: seq<nat>, m: map<int, V>, prev: nat, e: nat)
    requires IsSortedList(M, chain) && Represents(M, chain, m)
    requires prev in chain && 0 < e < |M| && e !in chain
    requires prev == 0 || M[prev].key < M[e].key
    requires M[prev].next.Some? ==> M[prev].next.value < |M| && M[M[prev].next.value].key > M[e].key
    requires M[e].next == M[prev].next && M' == M[prev := M[prev].(next := Some(e))]
    ensures IsSortedList(M', LinkAfter(chain, prev, e))
    ensures Represents(M', LinkAfter(chain, prev, e), m[M[e].key := M[e].box.v])
  {
    var i := IndexOf(chain, prev);
    PlaceDecides(M, chain, m, M[e].key, prev);
    assert M[chain[i]].next == ElementAt(chain, i + 1);
    assert LinkAfter(chain, prev, e) == chain[..i + 1] + [e] + chain[i + 1..];
    LinkedSorted(M, M', chain, i, e);
    LinkedRepresents(M, M', chain, m, i, e);
  }

  lemma LinkedRepresents<V>(M: seq<Entry<V>>, M': seq<Entry<V>>, chain: seq<nat>, m: map<int, V>, i: nat, e: nat)
    requires Represents(M, chain, m) && i < |chain| && e < |M| && M[e].key !in m
    requires forall j :: 0 <= j < |chain| ==> chain[j] < |M|
    requires |M'| == |M| && forall j :: 0 <= j < |M| ==> M'[j].key == M[j].key && M'[j].box == M[j].box
    ensures Represents(M', chain[..i + 1] + [e] + chain[i + 1..], m[M[e].key := M[e].box.v])
  {
    var c, m' := chain[..i + 1] + [e] + chain[i + 1..], m[M[e].key := M[e].box.v];
    forall j | 1 <= j < |c| ensures c[j] < |M'| && M'[c[j]].key in m' && m'[M'[c[j]].key] == M'[c[j]].box.v {
      if j <= i {
        assert M[chain[j]].key in m;
      } else if j > i + 1 {
        assert c[j] == chain[j - 1] && M[chain[j - 1]].key in m;
      }
    }
    forall key | key in m' ensures Listed(M', c, key) {
      if key == M[e].key {
        assert M'[c[i + 1]].key == key;
      } else {
        assert Listed(M, chain, key);
        var j :| 1 <= j < |chain| && chain[j] < |M| && M[chain[j]].key == key;
        var j' := if j <= i then j else j + 1;
        assert c[j'] == chain[j] && M'[c[j']].key == key;
      }
    }
  }

  lemma LinkMembers(chain: seq<nat>, prev: nat, e: nat)
    requires prev in chain
    ensures forall x :: x in LinkAfter(chain, prev, e) <==> x in chain || x == e
  {
    var i := IndexOf(chain, prev);
    assert chain == chain[..i + 1] + chain[i + 1..];
  }

  lemma SwapNextStep<V>(s: State<V>, chain: seq<nat>, m: map<int, V>, t: nat)
    requires Inv(s, chain, m) && t < |s.threads| && s.threads[t].SwapNext? && Links(s, t, Continue)
    ensures IsMapStep(NextChain(s, t, Continue, chain), m, Step(s, t, Continue))
  {
    var r, l := Step(s, t, Continue).state, s.threads[t];
    PrivateBounds(s.entries, chain, s.threads, t);
    LinkEntry(s.entries, r.entries, chain, m, l.prev, l.op.entry.value);
    LinkKeepsThreads(s.entries, r.entries, chain, s.threads, t, l.prev, l.op.entry.value);
  }

  lemma LinkKeepsThreads<V>(M: seq<Entry<V>>, M': seq<Entry<V>>, chain: seq<nat>, threads: seq<Local<V>>, t: nat,
                            prev: nat, e: nat)
    requires ThreadsInv(M, chain, threads) && t < |threads| && Private(threads[t]) == Some(e)
    requires prev in chain && prev < |M| && M' == M[prev := M[prev].(next := Some(e))]
    ensures ThreadsInv(M', LinkAfter(chain, prev, e), threads[t := Idle])
  {
    var chain', threads' := LinkAfter(chain, prev, e), threads[t := Idle];
    LinkMembers(chain, prev, e);
    forall u | 0 <= u < |threads'| ensures LocalInv(M', chain', threads'[u]) {
      if u != t {
        if Private(threads[u]).Some? {
          PrivateApart(M, chain, threads, t, u);
        }
        FrameLocal(M, M', chain, chain', threads[u]);
      }
    }
  }

  lemma GetValueStep<V>(s: State<V>, chain: seq<nat>, m: map<int, V>, t: nat)
    requires Inv(s, chain, m) && t < |s.threads| && s.threads[t].GetValue?
    ensures IsMapStep(chain, m, Step(s, t, Continue))
  {
    var l := s.threads[t];
    var i := IndexOf(chain, l.target);
    assert s.entries[chain[i]].key == l.op.key;
    QuietStep(s, chain, m, t, Idle, s.boxes);
  }

  /** Calls, value loads and failed swaps only move the thread. */
  predicate OnlyMoves<V>(s: State<V>, t: nat, c: Choice<V>)
    requires t < |s.threads|
  {
    var l := s.threads[t];
    || !c.Continue? || l.Idle? || l.LoadValue?
    || (l.SwapNext? && !Links(s, t, c))
    || (l.SwapValue? && l.target < |s.entries| && s.entries[l.target].box.id != l.seen.id)
  }

  lemma MoveIsQuiet<V>(s: State<V>, chain: seq<nat>, t: nat, c: Choice<V>)
    requires t < |s.threads| && LocalInv(s.entries, chain, s.threads[t]) && OnlyMoves(s, t, c)
    ensures var o := Step(s, t, c);
      var l := o.state.threads[t];
      && o.event == Silent && o.state == Goto(s, t, l).(boxes := s.boxes)
      && LocalInv(s.entries, chain, l) && (Private(l) == None || Private(l) == Private(s.threads[t]))
  {
  }

  lemma MoveStep<V>(s: State<V>, chain: seq<nat>, m: map<int, V>, t: nat, c: Choice<V>)
    requires Inv(s, chain, m) && t < |s.threads| && OnlyMoves(s, t, c)
    ensures IsMapStep(chain, m, Step(s, t, c))
  {
    MoveIsQuiet(s, chain, t, c);
    QuietStep(s, chain, m, t, Step(s, t, c).state.threads[t], s.boxes);
  }

  /** Every step of every thread is one operation of an atomic map, or none. */
  lemma StepIsMapStep<V>(s: State<V>, chain: seq<nat>, m: map<int, V>, t: nat, c: Choice<V>)
    requires Inv(s, chain, m) && t < |s.threads|
    ensures IsMapStep(NextChain(s, t, c, chain), m, Step(s, t, c))
  {
    var l := s.threads[t];
    if c.Continue? && l.Begin? {
      ArriveStep(s, chain, m, t, l.op, 0);
    } else if c.Continue? && l.Seek? {
      ArriveStep(s, chain, m, t, l.op, l.cur);
    } else if c.Continue? && l.StoreNext? {
      StoreNextStep(s, chain, m, t);
    } else if c.Continue? && l.GetValue? {
      GetValueStep(s, chain, m, t);
    } else if l.SwapNext? && Links(s, t, c) {
      SwapNextStep(s, chain, m, t);
    } else if c.Continue? && l.SwapValue? && s.entries[l.target].box.id == l.seen.id {
      SwapValueStep(s, chain, m, t);
    } else {
      MoveStep(s, chain, m, t, c);
    }
  }

  /** The call that a thread is in. */
  datatype Call<V> = NoCall | InHas(key: int) | InGet(key: int) | InInsert(key: int, v: V)

  function CallOf<V>(l: Local<V>): Call<V> {
    if l.Idle? then NoCall
    else
      match l.op
      case Has(key) => InHas(key)
      case Get(key) => InGet(key)
      case Insert(key, v, _, _) => InInsert(key, v)
  }

  /** The calls an idle thread can make. */
  function CallMade<V>(c: Choice<V>): Call<V> {
    match c
    case CallHas(key) => InHas(key)
    case CallGet(key) => InGet(key)
    case CallInsert(key, v) => InInsert(key, v)
    case Continue => NoCall
  }

  /** What a call can answer: Has whether its own key is there, Get a value of its own key or that it is
      not there, Insert that it has stored its own value under its own key. */
  ghost predicate Answers<V>(call: Call<V>, e: Event<V>) {
    match call
    case NoCall => false
    case InHas(key) => e.Answered? && e.key == key
    case InGet(key) => (e.GotValue? && e.key == key) || e == Answered(key, false)
    case InInsert(key, v) => e == Stored(key, v)
  }

  /** The call of the thread after a step: it begins with the call and ends with the answer. */
  function NextCall<V>(call: Call<V>, c: Choice<V>, e: Event<V>): Call<V> {
    if call.NoCall? then CallMade(c) else if e.Silent? then call else NoCall
  }

  lemma ArriveAnswers<V>(s: State<V>, t: nat, op: Op<V>, prev: nat, link: Option<nat>)
    requires t < |s.threads| && !s.threads[t].Idle? && s.threads[t].op == op
    ensures var o, call := Arrive(s, t, op, prev, link), CallOf(s.threads[t]);
      && o.state.threads == s.threads[t := o.state.threads[t]]
      && CallOf(o.state.threads[t]) == NextCall(call, Continue, o.event)
      && (o.event == Silent || Answers(call, o.event))
  {
  }

  /** A call goes on until it answers, and answers only what such a call can. Nothing else moves. */
  lemma CallsAnswer<V>(s: State<V>, chain: seq<nat>, m: map<int, V>, t: nat, c: Choice<V>)
    requires Inv(s, chain, m) && t < |s.threads|
    ensures var o, call := Step(s, t, c), CallOf(s.threads[t]);
      && o.state.threads == s.threads[t := o.state.threads[t]]
      && CallOf(o.state.threads[t]) == NextCall(call, c, o.event)
      && (o.event == Silent || Answers(call, o.event))
      && (call == NoCall ==> o.state.(threads := s.threads) == s)
      && (call != NoCall && !c.Continue? ==> o == Outcome(s, Silent))
  {
    var l := s.threads[t];
    assert LocalInv(s.entries, chain, l);
    if c.Continue? && l.Begin? {
      ArriveAnswers(s, t, l.op, 0, s.entries[0].next);
    } else if c.Continue? && l.Seek? {
      ArriveAnswers(s, t, l.op, l.cur, s.entries[l.cur].next);
    }
  }

  /** How far a thread is from its answer if it runs alone; what it saw earlier may be out of date. */
  function Rank<V(==)>(M: seq<Entry<V>>, chain: seq<nat>, l: Local<V>): int {
    match l
    case Idle => 0
    case Begin(_) => |chain| + 3
    case Seek(_, cur) => if cur in chain then |chain| - IndexOf(chain, cur) + 2 else 0
    case GetValue(_, _) => 1
    case LoadValue(_, _) => 2
    case SwapValue(_, target, seen) => if target < |M| && M[target].box.id == seen.id then 1 else |chain| + 4
    case StoreNext(_, prev, next) => if prev < |M| && M[prev].next == next then 2 else |chain| + 5
    case SwapNext(_, prev, next) => if prev < |M| && M[prev].next == next then 1 else |chain| + 4
  }

  lemma IndexIs(chain: seq<nat>, i: nat)
    requires i < |chain| && forall a, b :: 0 <= a < b < |chain| ==> chain[a] != chain[b]
    ensures IndexOf(chain, chain[i]) == i
  {
  }

  lemma ArriveLowersRank<V>(s: State<V>, chain: seq<nat>, t: nat, op: Op<V>, i: nat)
    requires IsSortedList(s.entries, chain) && t < |s.threads| && i < |chain|
    ensures var r := Arrive(s, t, op, chain[i], s.entries[chain[i]].next).state;
      Rank(r.entries, chain, r.threads[t]) < |chain| - i + 2
  {
    assert s.entries[chain[i]].next == ElementAt(chain, i + 1);
    if i + 1 < |chain| {
      IndexIs(chain, i + 1);
    }
  }

  /** Every step of a thread brings it closer to its answer, if nobody moves in between. */
  lemma StepLowersRank<V>(s: State<V>, chain: seq<nat>, m: map<int, V>, t: nat)
    requires Inv(s, chain, m) && t < |s.threads| && !s.threads[t].Idle?
    ensures var r := Step(s, t, Continue).state;
      r.threads[t] == Idle ||
      (NextChain(s, t, Continue, chain) == chain &&
       Rank(r.entries, chain, r.threads[t]) < Rank(s.entries, chain, s.threads[t]))
  {
    var l := s.threads[t];
    assert LocalInv(s.entries, chain, l);
    if l.Begin? {
      ArriveLowersRank(s, chain, t, l.op, 0);
    } else if l.Seek? {
      ArriveLowersRank(s, chain, t, l.op, IndexOf(chain, l.cur));
    }
  }

  lemma RankIsPositive<V>(M: seq<Entry<V>>, chain: seq<nat>, l: Local<V>)
    requires LocalInv(M, chain, l) && !l.Idle?
    ensures Rank(M, chain, l) >= 1
  {
  }

  /** One entry of a schedule: the thread that moves and its choice. */
  datatype Action<V> = Action(tid: nat, choice: Choice<V>)

  /** A run so far, with the call each thread has made and not been answered, and the linked list and the
      plain map the same events would have built. */
  datatype Run<V> = Run(state: State<V>, calls: seq<Call<V>>, chain: seq<nat>, m: map<int, V>)

  function Extend<V(==)>(r: Run<V>, a: Action<V>): Run<V> {
    if a.tid >= |r.state.threads| then r
    else
      var o := Step(r.state, a.tid, a.choice);
      Run(o.state,
          if a.tid < |r.calls| then r.calls[a.tid := NextCall(r.calls[a.tid], a.choice, o.event)] else r.calls,
          NextChain(r.state, a.tid, a.choice, r.chain),
          NextMap(r.m, o.event))
  }

  /** The list holds the plain map, and every thread is in the call that it made. */
  ghost predicate IsMap<V>(r: Run<V>) {
    && Inv(r.state, r.chain, r.m)
    && |r.calls| == |r.state.threads|
    && forall t :: 0 <= t < |r.calls| ==> r.calls[t] == CallOf(r.state.threads[t])
  }

  function Execute<V(==)>(r: Run<V>, schedule: seq<Action<V>>): Run<V>
    decreases schedule
  {
    if schedule == [] then r else Execute(Extend(r, schedule[0]), schedule[1..])
  }

  /** An empty bucket: the sentinel alone. Its key is never compared. */
  function Start<V>(threadCount: nat, v: V): Run<V> {
    Run(State([Entry(0, Box(0, v), None)], 1, seq(threadCount, _ => Idle)), seq(threadCount, _ => NoCall), [0], map[])
  }

  lemma ExtendKeepsMap<V>(r: Run<V>, a: Action<V>)
    requires IsMap(r)
    ensures IsMap(Extend(r, a)) && |Extend(r, a).state.threads| == |r.state.threads|
  {
    if a.tid < |r.state.threads| {
      StepIsMapStep(r.state, r.chain, r.m, a.tid, a.choice);
      CallsAnswer(r.state, r.chain, r.m, a.tid, a.choice);
    }
  }

  lemma {:induction false} ExecuteKeepsMap<V>(r: Run<V>, schedule: seq<Action<V>>)
    requires IsMap(r)
    ensures var r' := Execute(r, schedule); IsMap(r') && |r'.state.threads| == |r.state.threads|
    decreases schedule
  {
    if schedule != [] {
      ExtendKeepsMap(r, schedule[0]);
      ExecuteKeepsMap(Extend(r, schedule[0]), schedule[1..]);
    }
  }

  lemma StartIsMap<V>(threadCount: nat, v: V)
    ensures IsMap(Start(threadCount, v))
  {
  }

  /** Over every run of any number of threads: the list stays strictly sorted with one entry per key,
      it holds exactly the pairs stored so far, and the next step answers as the plain map would. */
  lemma BucketIsAtomicMap<V>(threadCount: nat, v: V, schedule: seq<Action<V>>, a: Action<V>)
    ensures var r := Execute(Start(threadCount, v), schedule);
      && IsSortedList(r.state.entries, r.chain)
      && Represents(r.state.entries, r.chain, r.m)
      && (a.tid < |r.state.threads| ==>
            match Step(r.state, a.tid, a.choice).event
            case Answered(key, present) => present == (key in r.m)
            case GotValue(key, x) => key in r.m && r.m[key] == x
            case _ => true)
  {
    StartIsMap(threadCount, v);
    ExecuteKeepsMap(Start(threadCount, v), schedule);
    var r := Execute(Start(threadCount, v), schedule);
    if a.tid < |r.state.threads| {
      StepIsMapStep(r.state, r.chain, r.m, a.tid, a.choice);
    }
  }

  lemma {:induction false} StoredKeysStay<V>(r: Run<V>, schedule: seq<Action<V>>)
    ensures r.m.Keys <= Execute(r, schedule).m.Keys
    decreases schedule
  {
    if schedule != [] {
      StoredKeysStay(Extend(r, schedule[0]), schedule[1..]);
    }
  }

  lemma ListedIsStored<V>(M: seq<Entry<V>>, chain: seq<nat>, m: map<int, V>, key: int)
    requires IsSortedList(M, chain) && Represents(M, chain, m)
    ensures Listed(M, chain, key) <==> key in m
  {
  }

  /** Entries are never lost: a key that is linked into the list is linked in every later state. */
  lemma KeysStay<V>(r: Run<V>, schedule: seq<Action<V>>, key: int)
    requires IsMap(r) && Listed(r.state.entries, r.chain, key)
    ensures var r' := Execute(r, schedule); Listed(r'.state.entries, r'.chain, key)
  {
    var r' := Execute(r, schedule);
    ExecuteKeepsMap(r, schedule);
    StoredKeysStay(r, schedule);
    ListedIsStored(r.state.entries, r.chain, r.m, key);
    ListedIsStored(r'.state.entries, r'.chain, r'.m, key);
  }

  /** Over every run, a thread is idle exactly when it has made no call that is not answered, and the
      next step of any thread is silent or answers the very call that this thread has made. */
  lemma RunAnswersCalls<V>(threadCount: nat, v: V, schedule: seq<Action<V>>, a: Action<V>)
    requires a.tid < threadCount
    ensures var r := Execute(Start(threadCount, v), schedule);
      && |r.calls| == |r.state.threads| == threadCount
      && (r.state.threads[a.tid] == Idle <==> r.calls[a.tid] == NoCall)
      && var e := Step(r.state, a.tid, a.choice).event; e == Silent || Answers(r.calls[a.tid], e)
  {
    StartIsMap(threadCount, v);
    ExecuteKeepsMap(Start(threadCount, v), schedule);
    var r := Execute(Start(threadCount, v), schedule);
    CallsAnswer(r.state, r.chain, r.m, a.tid, a.choice);
  }

  /** An Insert that returns has stored its value: the key is linked into the list, then and ever after. */
  lemma InsertedIsListed<V>(r: Run<V>, a: Action<V>, key: int, v: V, later: seq<Action<V>>)
    requires IsMap(r) && a.tid < |r.calls| && r.calls[a.tid] == InInsert(key, v)
    requires Extend(r, a).calls[a.tid] == NoCall
    ensures var r' := Extend(r, a);
      && key in r'.m && r'.m[key] == v && Listed(r'.state.entries, r'.chain, key)
      && Listed(Execute(r', later).state.entries, Execute(r', later).chain, key)
  {
    CallsAnswer(r.state, r.chain, r.m, a.tid, a.choice);
    ExtendKeepsMap(r, a);
    var r' := Extend(r, a);
    ListedIsStored(r'.state.entries, r'.chain, r'.m, key);
    KeysStay(r', later, key);
  }

  /** The states that a run goes through while one thread goes on alone. */
  ghost predicate IsSolo<V>(rs: seq<Run<V>>, tid: nat)
    decreases |rs|
  {
    rs != [] && (|rs| > 1 ==> rs[1] == Extend(rs[0], Action(tid, Continue)) && IsSolo(rs[1..], tid))
  }

  lemma {:induction false} SoloGoesOn<V>(r: Run<V>, tid: nat, n: nat) returns (rs: seq<Run<V>>)
    ensures IsSolo(rs, tid) && rs[0] == r && |rs| == n + 1
    decreases n
  {
    if n == 0 {
      rs := [r];
    } else {
      var rest := SoloGoesOn(Extend(r, Action(tid, Continue)), tid, n - 1);
      rs := [r] + rest;
      assert rs[1..] == rest;
    }
  }

  /** Such a run is a run. */
  lemma {:induction false} SoloIsARun<V>(rs: seq<Run<V>>, tid: nat) returns (schedule: seq<Action<V>>)
    requires IsSolo(rs, tid)
    ensures rs[|rs| - 1] == Execute(rs[0], schedule) && |schedule| == |rs| - 1
    ensures forall a :: a in schedule ==> a == Action(tid, Continue)
    decreases |rs|
  {
    schedule := [];
    if |rs| > 1 {
      var rest := SoloIsARun(rs[1..], tid);
      schedule := [Action(tid, Continue)] + rest;
      assert schedule[1..] == rest;
    }
  }

  lemma {:induction false} IdleStays<V>(rs: seq<Run<V>>, t: nat)
    requires IsSolo(rs, t) && IsMap(rs[0]) && t < |rs[0].state.threads| && rs[0].state.threads[t] == Idle
    ensures rs[|rs| - 1] == rs[0]
    decreases |rs|
  {
    if |rs| > 1 {
      CallsAnswer(rs[0].state, rs[0].chain, rs[0].m, t, Continue);
      assert rs[1].state.threads == rs[0].state.threads && rs[1].calls == rs[0].calls;
      IdleStays(rs[1..], t);
    }
  }

  /** What an answered call has done to the map: an Insert has stored, and no other call has changed it. */
  function AfterCall<V>(m: map<int, V>, call: Call<V>): map<int, V> {
    match call
    case InInsert(key, v) => m[key := v]
    case _ => m
  }

  lemma SoloStep<V>(r: Run<V>, t: nat)
    requires IsMap(r) && t < |r.state.threads| && !r.state.threads[t].Idle?
    ensures var r' := Extend(r, Action(t, Continue));
      && IsMap(r') && |r'.state.threads| == |r.state.threads|
      && (if r'.state.threads[t] == Idle then r'.m == AfterCall(r.m, r.calls[t])
          else
            && r'.calls[t] == r.calls[t] && r'.m == r.m
            && Rank(r'.state.entries, r'.chain, r'.state.threads[t])
               < Rank(r.state.entries, r.chain, r.state.threads[t]))
  {
    ExtendKeepsMap(r, Action(t, Continue));
    CallsAnswer(r.state, r.chain, r.m, t, Continue);
    StepLowersRank(r.state, r.chain, r.m, t);
  }

  /** A thread that runs alone answers its call, from any state, after a number of steps that the length
      of the list bounds. An Insert has then changed the map at its key, and no other call has. */
  lemma {:induction false} SoloCallAnswers<V>(rs: seq<Run<V>>, t: nat)
    requires IsSolo(rs, t) && IsMap(rs[0]) && t < |rs[0].state.threads|
    requires |rs| > Rank(rs[0].state.entries, rs[0].chain, rs[0].state.threads[t])
    ensures var r, r' := rs[0], rs[|rs| - 1];
      t < |r.calls| && t < |r'.state.threads| && r'.state.threads[t] == Idle && r'.m == AfterCall(r.m, r.calls[t])
    decreases |rs|
  {
    if rs[0].state.threads[t] == Idle {
      IdleStays(rs, t);
    } else {
      RankIsPositive(rs[0].state.entries, rs[0].chain, rs[0].state.threads[t]);
      SoloStep(rs[0], t);
      if rs[1].state.threads[t] == Idle {
        IdleStays(rs[1..], t);
      } else {
        SoloCallAnswers(rs[1..], t);
      }
    }
  }
}
