/** Reading a record file message by message, `cyber/record/record_reader.cc`. A file is the sequence of
    its sections; every section that is there can be read. */
module RecordReader {
  import opened Helpers

  datatype Message = Message(time: nat, channel: string, content: string)

  datatype Section =
    | ChannelInfo
    | ChunkHeader(begin: nat, end: nat)
    | ChunkBody(messages: seq<Message>)
    | Index

  /** All messages of the sections up to the index, in file order. */
  function Messages(sections: seq<Section>): seq<Message> {
    if sections == [] || sections[0].Index? then []
    else (if sections[0].ChunkBody? then sections[0].messages else []) + Messages(sections[1..])
  }

  /** The body that a header announces. */
  function NextBody(sections: seq<Section>): seq<Message> {
    if sections == [] || sections[0].Index? then []
    else if sections[0].ChunkBody? then sections[0].messages
    else NextBody(sections[1..])
  }

  ghost predicate Sorted(s: seq<Message>) {
    forall i, j :: 0 <= i < j < |s| ==> s[i].time <= s[j].time
  }

  ghost predicate AllBefore(s: seq<Message>, time: nat) { forall i :: 0 <= i < |s| ==> s[i].time < time }

  ghost predicate AllAfter(s: seq<Message>, time: nat) { forall i :: 0 <= i < |s| ==> s[i].time > time }

  ghost predicate NoneWithin(s: seq<Message>, low: nat, high: nat) {
    forall i :: 0 <= i < |s| ==> !(low <= s[i].time <= high)
  }

  ghost predicate AllWithin(s: seq<Message>, low: nat, high: nat) {
    forall i :: 0 <= i < |s| ==> low <= s[i].time <= high
  }

  /** A chunk header bounds its chunk from above, and everything that follows from below. */
  ghost predicate HeaderBounds(sections: seq<Section>, i: nat)
    requires i < |sections|
  {
    sections[i].ChunkHeader? ==>
      && (forall m :: m in Messages(sections[i + 1..]) ==> sections[i].begin <= m.time)
      && (forall m :: m in NextBody(sections[i + 1..]) ==> m.time <= sections[i].end)
  }

  ghost predicate HeadersBound(sections: seq<Section>) {
    forall i :: 0 <= i < |sections| ==> HeaderBounds(sections, i)
  }

  /** How the loop over the sections goes on: to the next section, with a chunk loaded, or not at all. */
  datatype Turn = GoOn | Loaded | PastWindow

  class RecordReader {
    const sections: seq<Section>
    const isValid: bool
    const headerBegin: nat
    const headerEnd: nat
    var position: nat
    var reachEnd: bool
    var chunk: seq<Message>
    var messageIndex: nat

    /** What a writer promises: time order, and headers that bound their contents. */
    ghost predicate FileOk() {
      && Sorted(Messages(sections))
      && HeadersBound(sections)
      && AllWithin(Messages(sections), headerBegin, headerEnd)
    }

    ghost predicate Valid()
      reads this
    {
      && FileOk()
      && position <= |sections| && messageIndex <= |chunk|
      && Sorted(Remaining())
      && AllWithin(Remaining(), headerBegin, headerEnd)
    }

    /** The messages still to be read. */
    ghost function Remaining(): seq<Message>
      requires position <= |sections| && messageIndex <= |chunk|
      reads this
    {
      chunk[messageIndex..] + Ahead()
    }

    ghost function Ahead(): seq<Message>
      requires position <= |sections|
      reads this
    {
      if reachEnd then [] else Messages(sections[position..])
    }

    constructor (sections: seq<Section>, isValid: bool, headerBegin: nat, headerEnd: nat)
      ensures this.sections == sections && this.isValid == isValid
      ensures this.headerBegin == headerBegin && this.headerEnd == headerEnd
      ensures position == 0 && messageIndex == 0 && Remaining() == Messages(sections)
      ensures FileOk() ==> Valid()
    {
      this.sections, this.isValid, this.headerBegin, this.headerEnd := sections, isValid, headerBegin, headerEnd;
      position, reachEnd, chunk, messageIndex := 0, false, [], 0;
      new;
      assert this.sections[0..] == this.sections;
      assert Remaining() == Messages(this.sections);
    }

    /** Back to the start of the file. */
    method Reset()
      requires FileOk()
      modifies this
      ensures Valid() && Remaining() == Messages(sections)
    {
      position, reachEnd, chunk, messageIndex := 0, false, [], 0;
      assert sections[0..] == sections;
      assert Remaining() == Messages(sections);
    }

    /** What one turn of the loop in ReadNextChunk does with the next section. */
    method ReadSection(beginTime: nat, endTime: nat, skipNextChunkBody: bool)
      returns (turn: Turn, skip: bool, ghost skipped: seq<Message>)
      requires !reachEnd && position < |sections| && HeadersBound(sections)
      requires skipNextChunkBody ==> AllBefore(NextBody(sections[position..]), beginTime)
      modifies this`position, this`reachEnd, this`chunk
      ensures position == old(position) + 1 && AllBefore(skipped, beginTime)
      ensures skip && !reachEnd ==> AllBefore(NextBody(sections[position..]), beginTime)
      ensures turn != Loaded ==> old(Ahead()) == skipped + Ahead() && chunk == old(chunk)
      ensures turn == Loaded ==> old(Ahead()) == chunk + Ahead()
      ensures turn == PastWindow ==> AllAfter(Ahead(), endTime)
    {
      skipped := [];
      skip := skipNextChunkBody;
      SectionAhead(sections, position);
      var section := sections[position];
      position := position + 1;
      match section
      case Index =>
        reachEnd := true;
        return GoOn, skip, [];
      case ChannelInfo =>
        return GoOn, skip, [];
      case ChunkHeader(begin, end) =>
        HeaderAhead(sections, position - 1, beginTime, endTime);
        if end < beginTime {
          skip := true;
        }
        if begin > endTime {
          return PastWindow, skip, [];
        }
        return GoOn, skip, [];
      case ChunkBody(messages) =>
        if skipNextChunkBody {
          return GoOn, false, messages;
        }
        chunk := messages;
        return Loaded, skip, [];
    }

    /** Loads the next chunk that may hold a message of the window; skips bodies that end before it. */
    method ReadNextChunk(beginTime: nat, endTime: nat) returns (ok: bool, ghost skipped: seq<Message>)
      requires position <= |sections| && HeadersBound(sections)
      modifies this`position, this`reachEnd, this`chunk
      ensures old(position) <= position <= |sections|
      ensures AllBefore(skipped, beginTime)
      ensures ok ==> old(Ahead()) == skipped + (chunk + Ahead()) && position > old(position)
      ensures !ok ==> old(Ahead()) == skipped + Ahead() && AllAfter(Ahead(), endTime) && chunk == old(chunk)
    {
      var skipNextChunkBody := false;
      skipped := [];
      assert old(Ahead()) == [] + Ahead();
      while !reachEnd
        invariant old(position) <= position <= |sections|
        invariant AllBefore(skipped, beginTime) && chunk == old(chunk)
        invariant old(Ahead()) == skipped + Ahead()
        invariant skipNextChunkBody && !reachEnd ==> AllBefore(NextBody(sections[position..]), beginTime)
        decreases !reachEnd, |sections| - position
      {
        if position == |sections| {
          return false, skipped;
        }
        ghost var more;
        var turn;
        turn, skipNextChunkBody, more := ReadSection(beginTime, endTime, skipNextChunkBody);
        if turn == Loaded {
          return true, skipped;
        }
        Skip(old(Ahead()), skipped, more, Ahead(), beginTime);
        skipped := skipped + more;
        if turn == PastWindow {
          return false, skipped;
        }
      }
      return false, skipped;
    }

    /** Moves past the next message of the loaded chunk unless it is after the window. */
    method ScanOne(endTime: nat) returns (late: bool, next: Message)
      requires position <= |sections| && messageIndex < |chunk| && Sorted(Remaining())
      modifies this`messageIndex
      ensures messageIndex == if late then old(messageIndex) else old(messageIndex) + 1
      ensures late == (next.time > endTime)
      ensures !late ==> old(Remaining()) == [next] + Remaining()
      ensures late ==> AllAfter(Remaining(), endTime)
    {
      next := chunk[messageIndex];
      late := next.time > endTime;
      NextInChunk(chunk, messageIndex, Ahead());
      if late {
        assert Remaining() == [] + Remaining();
        SortedSuffix(Remaining(), [], Remaining(), 0, endTime);
      } else {
        messageIndex := messageIndex + 1;
      }
    }

    /** The loop of ReadMessage over the loaded chunk: it ends with a message of the window, at one past
        the window, or at the end of the chunk. */
    method ScanChunk(beginTime: nat, endTime: nat)
      returns (done: bool, message: Option<Message>, ghost skipped: seq<Message>)
      requires position <= |sections| && messageIndex <= |chunk| && Sorted(Remaining())
      modifies this`messageIndex
      ensures messageIndex <= |chunk| && AllBefore(skipped, beginTime)
      ensures message.Some? ==> done && beginTime <= message.value.time <= endTime
      ensures message.Some? ==> old(Remaining()) == skipped + ([message.value] + Remaining())
      ensures message.None? ==> old(Remaining()) == skipped + Remaining()
      ensures message.None? && done ==> AllAfter(Remaining(), endTime)
      ensures !done ==> messageIndex == |chunk|
    {
      skipped := [];
      assert old(Remaining()) == [] + Remaining();
      while messageIndex < |chunk|
        invariant messageIndex <= |chunk| && Sorted(Remaining())
        invariant old(Remaining()) == skipped + Remaining() && AllBefore(skipped, beginTime)
      {
        ghost var before := Remaining();
        var late, next := ScanOne(endTime);
        if late {
          return true, None, skipped;
        }
        SortedSuffix(before, [next], Remaining(), 0, 0);
        if next.time >= beginTime {
          return true, Some(next), skipped;
        }
        Skip(old(Remaining()), skipped, [next], Remaining(), beginTime);
        skipped := skipped + [next];
      }
      return false, None, skipped;
    }

    /** The next message of the closed time window, in file order, or none. Messages before the window
        are given up; messages after it are kept. */
    method ReadMessage(beginTime: nat, endTime: nat) returns (message: Option<Message>, ghost skipped: seq<Message>)
      requires Valid()
      modifies this`position, this`reachEnd, this`chunk, this`messageIndex
      ensures Valid() && AllBefore(skipped, beginTime)
      ensures message.Some? ==> isValid && beginTime <= message.value.time <= endTime
      ensures message.Some? ==> old(Remaining()) == skipped + ([message.value] + Remaining())
      ensures message.None? ==> old(Remaining()) == skipped + Remaining()
      ensures message.None? && isValid ==> NoneWithin(Remaining(), beginTime, endTime)
      decreases |sections| - position
    {
      skipped := [];
      if !isValid || beginTime > headerEnd || endTime < headerBegin {
        assert Remaining() == [] + Remaining();
        return None, skipped;
      }
      var done;
      done, message, skipped := ScanChunk(beginTime, endTime);
      if done {
        SortedSuffix(old(Remaining()), if message.Some? then skipped + [message.value] else skipped, Remaining(),
                     headerBegin, headerEnd);
        return message, skipped;
      }
      message, skipped := ReadOn(beginTime, endTime, old(Remaining()), skipped);
    }

    /** The rest of ReadMessage, once the loaded chunk is used up. */
    method ReadOn(beginTime: nat, endTime: nat, ghost all: seq<Message>, ghost read: seq<Message>)
      returns (message: Option<Message>, ghost skipped: seq<Message>)
      requires FileOk() && isValid && position <= |sections| && messageIndex == |chunk|
      requires all == read + Remaining() && Sorted(all) && AllWithin(all, headerBegin, headerEnd)
      requires AllBefore(read, beginTime)
      modifies this`position, this`reachEnd, this`chunk, this`messageIndex
      ensures Valid() && AllBefore(skipped, beginTime)
      ensures message.Some? ==> beginTime <= message.value.time <= endTime
      ensures message.Some? ==> all == skipped + ([message.value] + Remaining())
      ensures message.None? ==> all == skipped + Remaining() && NoneWithin(Remaining(), beginTime, endTime)
      decreases |sections| - position, 0
    {
      ghost var more;
      var ok;
      ok, more := LoadNext(beginTime, endTime);
      SkipSorted(all, read, more, Remaining(), beginTime, headerBegin, headerEnd);
      skipped := read + more;
      if !ok {
        return None, skipped;
      }
      ghost var rest;
      message, rest := ReadMessage(beginTime, endTime);
      Skip(all, skipped, rest, if message.Some? then [message.value] + Remaining() else Remaining(), beginTime);
      skipped := skipped + rest;
    }

    method StartChunk()
      requires position <= |sections|
      modifies this`messageIndex
      ensures messageIndex == 0 && Remaining() == chunk + Ahead()
    {
      messageIndex := 0;
      assert chunk[0..] == chunk;
    }

    /** Loads the next chunk and starts at its first message. */
    method LoadNext(beginTime: nat, endTime: nat) returns (ok: bool, ghost more: seq<Message>)
      requires HeadersBound(sections) && position <= |sections| && messageIndex == |chunk|
      modifies this`position, this`reachEnd, this`chunk, this`messageIndex
      ensures old(position) <= position <= |sections| && messageIndex <= |chunk|
      ensures old(Remaining()) == more + Remaining() && AllBefore(more, beginTime)
      ensures ok ==> position > old(position)
      ensures !ok ==> NoneWithin(Remaining(), beginTime, endTime)
    {
      assert Remaining() == Ahead();
      ok, more := ReadNextChunk(beginTime, endTime);
      if ok {
        StartChunk();
      } else {
        assert Remaining() == Ahead();
      }
    }
  }

  lemma NextInChunk(chunk: seq<Message>, i: nat, ahead: seq<Message>)
    requires i < |chunk|
    ensures chunk[i..] + ahead == [chunk[i]] + (chunk[i + 1..] + ahead)
  {
  }

  lemma SortedSuffix(all: seq<Message>, read: seq<Message>, rest: seq<Message>, low: nat, high: nat)
    requires Sorted(all) && all == read + rest
    ensures Sorted(rest)
    ensures AllWithin(all, low, high) ==> AllWithin(rest, low, high)
    ensures rest != [] && rest[0].time > high ==> AllAfter(rest, high)
  {
    assert forall i :: 0 <= i < |rest| ==> rest[i] == all[|read| + i];
  }

  lemma BothBefore(read: seq<Message>, more: seq<Message>, time: nat)
    requires AllBefore(read, time) && AllBefore(more, time)
    ensures AllBefore(read + more, time)
  {
  }

  /** More messages before the window are given up. */
  lemma Skip(all: seq<Message>, read: seq<Message>, more: seq<Message>, rest: seq<Message>, time: nat)
    requires all == read + (more + rest) && AllBefore(read, time) && AllBefore(more, time)
    ensures all == (read + more) + rest && AllBefore(read + more, time)
  {
    Reassociate(read, more, rest);
    BothBefore(read, more, time);
  }

  lemma SkipSorted(all: seq<Message>, read: seq<Message>, more: seq<Message>, rest: seq<Message>,
                   time: nat, low: nat, high: nat)
    requires all == read + (more + rest) && AllBefore(read, time) && AllBefore(more, time)
    requires Sorted(all) && AllWithin(all, low, high)
    ensures all == (read + more) + rest && AllBefore(read + more, time)
    ensures Sorted(rest) && AllWithin(rest, low, high)
  {
    Skip(all, read, more, rest, time);
    SortedSuffix(all, read + more, rest, low, high);
  }

  /** What reading one section does to the messages ahead. */
  lemma SectionAhead(sections: seq<Section>, position: nat)
    requires position < |sections|
    ensures var section, after := sections[position], sections[position + 1..];
      && Messages(sections[position..]) ==
         (if section.Index? then []
          else if section.ChunkBody? then section.messages + Messages(after)
          else Messages(after))
      && NextBody(sections[position..]) ==
         (if section.Index? then [] else if section.ChunkBody? then section.messages else NextBody(after))
  {
    assert sections[position..][1..] == sections[position + 1..];
    assert [] + Messages(sections[position + 1..]) == Messages(sections[position + 1..]);
  }

  lemma HeaderAhead(sections: seq<Section>, i: nat, beginTime: nat, endTime: nat)
    requires i < |sections| && sections[i].ChunkHeader? && HeadersBound(sections)
    ensures sections[i].end < beginTime ==> AllBefore(NextBody(sections[i + 1..]), beginTime)
    ensures sections[i].begin > endTime ==> AllAfter(Messages(sections[i + 1..]), endTime)
  {
    assert HeaderBounds(sections, i);
  }

  /** Files in which every chunk is a header and a nonempty body that the header bounds, in time order,
      satisfy the bounds the reader relies on. An empty chunk need not: its header can be far ahead. */
  lemma NonemptyChunksBound(sections: seq<Section>)
    requires forall i :: 0 <= i < |sections| && sections[i].Index? ==> i == |sections| - 1
    requires forall i :: 0 <= i < |sections| && sections[i].ChunkHeader? ==>
      && i + 1 < |sections| && sections[i + 1].ChunkBody? && sections[i + 1].messages != []
      && AllWithin(sections[i + 1].messages, sections[i].begin, sections[i].end)
    requires Sorted(Messages(sections))
    ensures HeadersBound(sections)
  {
    forall i | 0 <= i < |sections| ensures HeaderBounds(sections, i) {
      if sections[i].ChunkHeader? {
        var after, body := sections[i + 1..], sections[i + 1].messages;
        var before := MessagesSplit(sections, i + 1);
        SortedSuffix(Messages(sections), before, Messages(after), 0, 0);
        assert Messages(after)[0] == body[0] by {
          assert after[0] == sections[i + 1];
        }
      }
    }
  }

  lemma {:induction false} MessagesSplit(sections: seq<Section>, k: nat) returns (before: seq<Message>)
    requires k <= |sections|
    requires forall i :: 0 <= i < k ==> !sections[i].Index?
    ensures Messages(sections) == before + Messages(sections[k..])
  {
    if k == 0 {
      assert sections[0..] == sections;
      before := [];
    } else {
      before := MessagesSplit(sections[1..], k - 1);
      assert sections[1..][k - 1..] == sections[k..];
      var own := if sections[0].ChunkBody? then sections[0].messages else [];
      Reassociate(own, before, Messages(sections[k..]));
      before := own + before;
    }
  }
}
