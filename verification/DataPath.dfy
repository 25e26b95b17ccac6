/** The way of a message from the dispatcher to a reader: the overwriting ring of
    `cyber/data/cache_buffer.h`, the index protocol of `cyber/data/channel_buffer.h` and the reader's
    cursor of `cyber/data/data_visitor.h`. Each call runs under the buffer's mutex, so it is one step. */
module DataPath {
  import opened Helpers
  import opened Modular

  /** A ring over absolute positions 1, 2, 3, ...: position p is the p-th message ever filled. */
  class CacheBuffer<T(0)> {
    var head: nat
    var tail: nat
    const capacity: nat
    const buffer: array<T>
    ghost const size: nat
    ghost var history: seq<T>  // every message ever filled

    ghost predicate Valid()
      reads this, buffer
    {
      && capacity == size + 1 == buffer.Length
      && tail == |history|
      && head == (if tail <= size then 0 else tail - size)
      && Agrees(buffer[..], history, head)
    }

    constructor (size: nat)
      ensures Valid() && fresh(buffer) && history == [] && this.size == size
    {
      this.size, capacity := size, size + 1;
      buffer := new T[size + 1];
      head, tail, history := 0, 0, [];
    }

    function GetIndex(pos: nat): nat
      requires capacity > 0
    {
      pos % capacity
    }

    function At(pos: nat): (m: T)
      requires Valid()
      reads this, buffer
      ensures 1 <= pos <= tail && head <= pos ==> m == history[pos - 1]
    {
      assert 1 <= pos <= tail && head <= pos ==> InRing(buffer[..], history, pos);
      buffer[GetIndex(pos)]
    }

    /** Any position can be asked for: what is there is the newest message of its slot. */
    lemma AtIsNewest(pos: nat)
      requires Valid()
      ensures var p := NewestInSlot(pos, tail, capacity); 1 <= p ==> At(pos) == history[p - 1]
    {
      NewestIsKept(pos, tail, capacity);
      assert var p := NewestInSlot(pos, tail, capacity); 1 <= p ==> InRing(buffer[..], history, p);
    }

    function Size(): (n: nat)
      requires Valid()
      reads this, buffer
      ensures n == if |history| < size then |history| else size
    {
      tail - head
    }

    predicate Full()
      requires Valid()
      reads this, buffer
    {
      capacity - 1 == tail - head
    }

    /** Adds a message; a full ring loses its oldest one. */
    method Fill(value: T)
      requires Valid()
      modifies this, buffer
      ensures Valid() && history == old(history) + [value]
    {
      var full := Full();
      var slot := if full then GetIndex(head) else GetIndex(tail + 1);
      SlotOfNext(head, tail, capacity);
      RingTakes(buffer[..], history, head, if full then head + 1 else head, value);
      buffer[slot] := value;
      assert buffer[..] == old(buffer[..])[slot := value];
      if full {
        head := head + 1;
      }
      tail := tail + 1;
      history := history + [value];
    }
  }

  /** The largest position up to the tail that shares a slot with the given one; below 1 there is none. */
  function NewestInSlot(pos: nat, tail: nat, capacity: nat): (p: int)
    requires capacity > 0
    ensures tail - capacity < p <= tail
  {
    tail - (tail - pos) % capacity
  }

  lemma NewestIsKept(pos: nat, tail: nat, capacity: nat)
    requires capacity > 0
    ensures var p := NewestInSlot(pos, tail, capacity);
      p % capacity == pos % capacity && (tail - capacity < pos <= tail ==> p == pos)
  {
    var laps := (tail - pos) / capacity;
    LapsAndRest(tail - pos, capacity);
    assert NewestInSlot(pos, tail, capacity) == pos + laps * capacity;
    LapsShareSlot(pos, laps, capacity);
    if tail - capacity < pos <= tail {
      LessThanALap(tail - pos, capacity);
    }
  }

  lemma LapsShareSlot(pos: nat, laps: int, capacity: nat)
    requires capacity > 0
    ensures (pos + laps * capacity) % capacity == pos % capacity
  {
    var q, r := pos / capacity, pos % capacity;
    LapsAndRest(pos, capacity);
    Distribute(q, laps, capacity);
    assert pos + laps * capacity == (q + laps) * capacity + r;
    MultipleHasNoRest(q + laps, r, capacity);
  }

  /** Position p of the history is in its slot of the ring. */
  ghost predicate InRing<T>(ring: seq<T>, history: seq<T>, p: nat)
    requires |ring| > 0 && 1 <= p <= |history|
  {
    ring[p % |ring|] == history[p - 1]
  }

  ghost predicate Agrees<T>(ring: seq<T>, history: seq<T>, head: nat)
    requires |ring| > 0
  {
    forall p :: 1 <= p <= |history| && head <= p ==> InRing(ring, history, p)
  }

  lemma RingTakes<T>(ring: seq<T>, history: seq<T>, head: nat, head': nat, value: T)
    requires |ring| > 0 && Agrees(ring, history, head)
    requires head <= head' && |history| + 1 < head' + |ring|
    ensures Agrees(ring[(|history| + 1) % |ring| := value], history + [value], head')
  {
    var tail := |history| + 1;
    var ring', history' := ring[tail % |ring| := value], history + [value];
    forall p {:trigger InRing(ring', history', p)} | 1 <= p <= tail && head' <= p ensures InRing(ring', history', p) {
      if p < tail {
        assert InRing(ring, history, p);
        SameSlot(p, tail, |ring|);
      }
    }
  }

  /** A full ring writes the new message over the slot of its head. */
  lemma SlotOfNext(head: nat, tail: nat, capacity: nat)
    requires capacity > 0 && head <= tail
    ensures capacity - 1 == tail - head ==> head % capacity == (tail + 1) % capacity
  {
    if capacity - 1 == tail - head {
      SameSlot(head, tail + 1, capacity);
    }
  }

  lemma NextOfSlice<T>(s: seq<T>, from: nat, i: nat)
    requires from <= i < |s|
    ensures s[from..i] + [s[i]] == s[from..i + 1]
  {
  }

  /** What Fetch does with a reader's index, over the number of messages ever filled. */
  datatype Fetched = NothingNew | Deliver(position: nat)

  /** A reader starts at the newest message, goes on one by one, and jumps to the newest message when
      the ring has overwritten its place. */
  function FetchAt(index: nat, filled: nat, size: nat): Fetched {
    if filled == 0 || index == filled + 1 then NothingNew
    else if index == 0 || (index <= filled && index + size <= filled) then Deliver(filled)
    else Deliver(index)
  }

  class ChannelBuffer<T(0)> {
    const buffer: CacheBuffer<T>

    constructor (buffer: CacheBuffer<T>)
      ensures this.buffer == buffer
    {
      this.buffer := buffer;
    }

    /** The message at the index, which is first brought into the ring; the new index comes back too. An
        index past the next one is not checked: it delivers what is in its slot. */
    method Fetch(index: nat) returns (m: Option<T>, index': nat)
      requires buffer.Valid()
      ensures match FetchAt(index, |buffer.history|, buffer.size)
              case NothingNew => m == None && index' == index
              case Deliver(p) =>
                && m.Some? && index' == p
                && (p <= |buffer.history| ==> p >= 1 && m.value == buffer.history[p - 1])
                && (var q := NewestInSlot(p, |buffer.history|, buffer.size + 1);
                    q >= 1 ==> m.value == buffer.history[q - 1])
    {
      index' := index;
      if buffer.tail == 0 {
        return None, index;
      }
      if index == 0 {
        index' := buffer.tail;
      } else if index == buffer.tail + 1 {
        return None, index;
      } else if index < buffer.head + 1 {
        index' := buffer.tail;
      }
      buffer.AtIsNewest(index');
      m := Some(buffer.At(index'));
    }

    method Latest() returns (m: Option<T>)
      requires buffer.Valid()
      ensures m == if buffer.history == [] then None else Some(buffer.history[|buffer.history| - 1])
    {
      if buffer.tail == 0 {
        return None;
      }
      m := Some(buffer.At(buffer.tail));
    }

    /** The newest messages in the order they came, as many as asked for and kept. */
    method FetchMulti(fetchSize: nat) returns (vec: Option<seq<T>>)
      requires buffer.Valid()
      ensures buffer.history == [] ==> vec == None
      ensures buffer.history != [] ==>
        var n := |buffer.history|;
        var num := if buffer.Size() < fetchSize then buffer.Size() else fetchSize;
        vec == Some(buffer.history[n - num..])
    {
      if buffer.tail == 0 {
        return None;
      }
      var num := if buffer.Size() < fetchSize then buffer.Size() else fetchSize;
      var index := buffer.tail - num + 1;
      var got: seq<T> := [];
      while index <= buffer.tail
        invariant buffer.tail - num + 1 <= index <= buffer.tail + 1
        invariant got == buffer.history[buffer.tail - num..index - 1]
      {
        NextOfSlice(buffer.history, buffer.tail - num, index - 1);
        got := got + [buffer.At(index)];
        index := index + 1;
      }
      assert index == buffer.tail + 1;
      assert got == buffer.history[|buffer.history| - num..];
      vec := Some(got);
    }
  }

  /** A reader of one channel: its cursor, and what it has been given so far. */
  class DataVisitor<T(0)> {
    const channel: ChannelBuffer<T>
    var nextMsgIndex: nat
    ghost var delivered: seq<nat>  // positions handed to the reader
    ghost var dropped: nat         // positions passed over

    ghost predicate Valid()
      reads this, channel.buffer, channel.buffer.buffer
    {
      && channel.buffer.Valid()
      && nextMsgIndex <= |channel.buffer.history| + 1
      && (forall i, j :: 0 <= i < j < |delivered| ==> delivered[i] < delivered[j])
      && (if nextMsgIndex == 0 then delivered == [] && dropped == 0
          else delivered != [] && delivered[|delivered| - 1] == nextMsgIndex - 1 &&
               |delivered| + dropped == nextMsgIndex - 1)
    }

    /** How many messages have been filled and neither delivered nor dropped. */
    ghost function Pending(): nat
      requires Valid()
      reads this, channel.buffer, channel.buffer.buffer
    {
      |channel.buffer.history| - (if nextMsgIndex == 0 then 0 else nextMsgIndex - 1)
    }

    constructor (size: nat)
      ensures Valid() && nextMsgIndex == 0 && channel.buffer.history == [] && channel.buffer.size == size
      ensures fresh(channel.buffer) && fresh(channel.buffer.buffer)
    {
      var buffer := new CacheBuffer<T>(size);
      channel := new ChannelBuffer<T>(buffer);
      nextMsgIndex, delivered, dropped := 0, [], 0;
    }

    /** DataDispatcher::Dispatch on this visitor's buffer. */
    method Dispatch(msg: T)
      requires Valid()
      modifies channel.buffer, channel.buffer.buffer
      ensures Valid() && channel.buffer.history == old(channel.buffer.history) + [msg]
      ensures Pending() == old(Pending()) + 1
    {
      channel.buffer.Fill(msg);
    }

    /** The next message for the reader. It is the one after the last delivered, unless this is the
        first delivery or the ring has overwritten it: then it is the newest, and the rest is dropped.
        Nothing comes back exactly when nothing is pending. */
    method TryFetch() returns (m: Option<T>)
      requires Valid()
      modifies this
      ensures Valid()
      ensures m.None? <==> old(Pending()) == 0
      ensures m.None? ==> delivered == old(delivered) && dropped == old(dropped) && nextMsgIndex == old(nextMsgIndex)
      ensures m.Some? ==>
        var history, n := channel.buffer.history, |channel.buffer.history|;
        var due := |old(delivered)| + old(dropped) + 1;
        var p := if old(nextMsgIndex) == 0 || due + channel.buffer.size <= n then n else due;
        && delivered == old(delivered) + [p] && m.value == history[p - 1]
        && dropped == old(dropped) + (p - due)
      ensures |delivered| + dropped + Pending() == |channel.buffer.history|
    {
      var index;
      m, index := channel.Fetch(nextMsgIndex);
      if m.Some? {
        ghost var due := if nextMsgIndex == 0 then 1 else nextMsgIndex;
        delivered, dropped := delivered + [index], dropped + (index - due);
        nextMsgIndex := index + 1;
      }
    }
  }

  ghost predicate Separate<T(0)>(rings: seq<CacheBuffer<T>>) {
    forall i, j :: 0 <= i < j < |rings| ==> rings[i] != rings[j] && rings[i].buffer != rings[j].buffer
  }

  /** The dispatcher holds its rings by weak pointers: `live` are those that some reader keeps alive. */
  class DataDispatcher<T(0)> {
    var rings: map<nat, seq<CacheBuffer<T>>>
    var live: set<CacheBuffer<T>>
    var notifiers: set<nat>  // channels that DataNotifier knows

    constructor ()
      ensures rings == map[] && live == {} && notifiers == {}
    {
      rings, live, notifiers := map[], {}, {};
    }

    function RingsOf(channel: nat): seq<CacheBuffer<T>>
      reads this
    {
      if channel in rings then rings[channel] else []
    }

    method AddBuffer(channel: nat, ring: CacheBuffer<T>)
      modifies this`rings, this`live
      ensures RingsOf(channel) == old(RingsOf(channel)) + [ring] && live == old(live) + {ring}
      ensures forall c :: c != channel ==> RingsOf(c) == old(RingsOf(c))
    {
      rings := rings[channel := (if channel in rings then rings[channel] + [ring] else [ring])];
      live := live + {ring};
    }

    /** Every live ring of the channel gets the message, once, and no other ring changes. True means
        that it went out to at least the channel's rings and its readers have been notified. */
    method Dispatch(channel: nat, msg: T, shutdown: bool) returns (ok: bool)
      requires Separate(RingsOf(channel))
      requires forall i :: 0 <= i < |RingsOf(channel)| ==> RingsOf(channel)[i].Valid()
      modifies RingsOf(channel), set i | 0 <= i < |RingsOf(channel)| :: RingsOf(channel)[i].buffer
      ensures ok <==> !shutdown && channel in rings && channel in notifiers
      ensures forall i :: 0 <= i < |RingsOf(channel)| ==> RingsOf(channel)[i].Valid()
      ensures forall i :: 0 <= i < |RingsOf(channel)| ==>
        var ring := RingsOf(channel)[i];
        ring.history == old(ring.history) + if !shutdown && ring in live then [msg] else []
    {
      if shutdown {
        return false;
      }
      if channel !in rings {
        return false;
      }
      var all := rings[channel];
      for i := 0 to |all|
        invariant forall j :: 0 <= j < |all| ==> all[j].Valid()
        invariant forall j :: 0 <= j < |all| ==>
          all[j].history == old(all[j].history) + if j < i && all[j] in live then [msg] else []
      {
        if all[i] in live {
          all[i].Fill(msg);
        }
      }
      ok := channel in notifiers;
    }
  }
}
