/** Iterating several record files together in time order, `cyber/record/record_viewer.cc`: one-second
    windows and a buffer sorted by time, against one stable merge of all messages. */
module RecordViewer {
  import opened Helpers
  import opened RecordReader

  const STEP_TIME_NS := 1_000_000_000
  const BUFFER_MIN_SIZE := 128
  const UINT64_RANGE := 0x1_0000_0000_0000_0000

  /** The messages of one time, in order. */
  function At(s: seq<Message>, time: nat): seq<Message> {
    if s == [] then []
    else if s[0].time == time then [s[0]] + At(s[1..], time)
    else At(s[1..], time)
  }

  /** The messages of one time of all files: reader order first, file order within. */
  function AllAt(files: seq<seq<Message>>, time: nat): seq<Message> {
    if files == [] then [] else At(files[0], time) + AllAt(files[1..], time)
  }

  /** The reference: all messages of a closed time range by time, then reader order, then file order. */
  function Merged(files: seq<seq<Message>>, low: nat, high: nat): seq<Message>
    decreases high + 1 - low
  {
    if low > high then [] else AllAt(files, low) + Merged(files, low + 1, high)
  }

  /** The messages on the selected channels; no selection means all. */
  function Selected(s: seq<Message>, channels: set<string>): seq<Message> {
    if s == [] then []
    else (if channels == {} || s[0].channel in channels then [s[0]] else []) + Selected(s[1..], channels)
  }

  /** Selecting keeps every copy of a message on a selected channel, drops every other one, and keeps the
      order. */
  lemma {:induction false} SelectedIsAFilter(s: seq<Message>, channels: set<string>, m: Message)
    ensures multiset(Selected(s, channels))[m] == if channels == {} || m.channel in channels then multiset(s)[m] else 0
  {
    if s != [] {
      SelectedIsAFilter(s[1..], channels, m);
      var first := if channels == {} || s[0].channel in channels then [s[0]] else [];
      assert s == [s[0]] + s[1..];
      assert multiset(s) == multiset([s[0]]) + multiset(s[1..]);
      assert multiset(Selected(s, channels)) == multiset(first) + multiset(Selected(s[1..], channels));
    }
  }

  lemma {:induction false} SelectedKeepsOrder(a: seq<Message>, b: seq<Message>, channels: set<string>)
    ensures Selected(a + b, channels) == Selected(a, channels) + Selected(b, channels)
  {
    if a == [] {
      assert a + b == b;
    } else {
      assert (a + b)[0] == a[0] && (a + b)[1..] == a[1..] + b;
      SelectedKeepsOrder(a[1..], b, channels);
      Reassociate(if channels == {} || a[0].channel in channels then [a[0]] else [], Selected(a[1..], channels),
                  Selected(b, channels));
    }
  }

  /** multimap::emplace: after the entries with the same or an earlier time. */
  function Insert(buffer: seq<Message>, m: Message): seq<Message> {
    if buffer == [] || m.time < buffer[0].time then [m] + buffer else [buffer[0]] + Insert(buffer[1..], m)
  }

  lemma {:induction false} AtConcat(a: seq<Message>, b: seq<Message>, time: nat)
    ensures At(a + b, time) == At(a, time) + At(b, time)
  {
    if a == [] {
      assert a + b == b;
    } else {
      assert (a + b)[1..] == a[1..] + b;
      AtConcat(a[1..], b, time);
      Reassociate([a[0]], At(a[1..], time), At(b, time));
    }
  }

  lemma {:induction false} AtNone(s: seq<Message>, time: nat)
    requires forall i :: 0 <= i < |s| ==> s[i].time != time
    ensures At(s, time) == []
  {
    if s != [] {
      AtNone(s[1..], time);
    }
  }

  lemma {:induction false} AtSome(s: seq<Message>, i: nat)
    requires i < |s|
    ensures At(s, s[i].time) != []
  {
    if i > 0 {
      AtSome(s[1..], i - 1);
    }
  }

  lemma SortedCons(s: seq<Message>)
    requires Sorted(s) && s != []
    ensures Sorted(s[1..])
  {
  }

  lemma BufferFirst(buffer: seq<Message>, rest: seq<Message>, time: nat)
    requires Sorted(buffer) && AllBefore(buffer, time) && buffer != []
    ensures Sorted(buffer[1..]) && AllBefore(buffer[1..], time)
    ensures buffer + rest == [buffer[0]] + (buffer[1..] + rest)
  {
  }

  lemma SortedConcat(a: seq<Message>, b: seq<Message>, cut: nat)
    requires Sorted(a) && Sorted(b) && AllBefore(a, cut)
    requires forall i :: 0 <= i < |b| ==> b[i].time >= cut
    ensures Sorted(a + b)
  {
  }

  lemma {:induction false} InsertSorted(buffer: seq<Message>, m: Message)
    requires Sorted(buffer)
    ensures Sorted(Insert(buffer, m)) && |Insert(buffer, m)| == |buffer| + 1
    ensures Insert(buffer, m)[0] == m || (buffer != [] && Insert(buffer, m)[0] == buffer[0])
    ensures forall high :: AllBefore(buffer, high) && m.time < high ==> AllBefore(Insert(buffer, m), high)
  {
    if buffer != [] && m.time >= buffer[0].time {
      SortedCons(buffer);
      InsertSorted(buffer[1..], m);
      var rest := Insert(buffer[1..], m);
      forall high | AllBefore(buffer, high) && m.time < high ensures AllBefore(Insert(buffer, m), high) {
        assert AllBefore(buffer[1..], high);
      }
    }
  }

  lemma {:induction false} InsertAt(buffer: seq<Message>, m: Message, time: nat)
    requires Sorted(buffer)
    ensures At(Insert(buffer, m), time) == At(buffer, time) + if m.time == time then [m] else []
  {
    if buffer == [] {
    } else if m.time < buffer[0].time {
      if m.time == time {
        AtNone(buffer, time);
      }
      assert ([m] + buffer)[1..] == buffer;
    } else {
      InsertAt(buffer[1..], m, time);
      assert ([buffer[0]] + Insert(buffer[1..], m))[1..] == Insert(buffer[1..], m);
    }
  }

  /** A sorted sequence is determined by what it has at each time. */
  lemma {:induction false} SortedUnique(a: seq<Message>, b: seq<Message>)
    requires Sorted(a) && Sorted(b) && forall t: nat :: At(a, t) == At(b, t)
    ensures a == b
  {
    if a == [] {
      if b != [] {
        AtSome(b, 0);
      }
    } else {
      AtSome(a, 0);
      SameHead(a, b);
      SortedCons(a);
      SortedCons(b);
      forall t: nat ensures At(a[1..], t) == At(b[1..], t) {
        assert At(a, t) == At(b, t);
        if a[0].time == t {
          assert At(a, t)[1..] == At(a[1..], t) && At(b, t)[1..] == At(b[1..], t);
        }
      }
      SortedUnique(a[1..], b[1..]);
      assert a == [a[0]] + a[1..] && b == [b[0]] + b[1..];
    }
  }

  lemma SameHead(a: seq<Message>, b: seq<Message>)
    requires Sorted(a) && Sorted(b) && a != [] && forall t: nat :: At(a, t) == At(b, t)
    ensures b != [] && a[0] == b[0]
  {
    AtSome(a, 0);
    assert At(a, a[0].time) == At(b, a[0].time);
    AtSome(b, 0);
    assert At(a, b[0].time) == At(b, b[0].time);
    if a[0].time < b[0].time {
      AtNone(b, a[0].time);
    } else if b[0].time < a[0].time {
      AtNone(a, b[0].time);
    }
  }

  lemma {:induction false} AllAtTimes(files: seq<seq<Message>>, time: nat)
    ensures AllWithin(AllAt(files, time), time, time)
    ensures At(AllAt(files, time), time) == AllAt(files, time)
    ensures forall t: nat :: t != time ==> At(AllAt(files, time), t) == []
  {
    if files != [] {
      AtTimes(files[0], time);
      AllAtTimes(files[1..], time);
      forall t: nat ensures At(AllAt(files, time), t) == At(At(files[0], time), t) + At(AllAt(files[1..], time), t) {
        AtConcat(At(files[0], time), AllAt(files[1..], time), t);
      }
    }
  }

  lemma {:induction false} AtTimes(s: seq<Message>, time: nat)
    ensures AllWithin(At(s, time), time, time)
    ensures At(At(s, time), time) == At(s, time)
    ensures forall t: nat :: t != time ==> At(At(s, time), t) == []
  {
    if s != [] {
      AtTimes(s[1..], time);
      if s[0].time == time {
        assert At(s, time)[1..] == At(s[1..], time);
      }
    }
  }

  /** The reference merge is in time order, within the range, and at each time has the messages of that
      time in reader and file order: nothing is lost, added or reordered. */
  lemma {:induction false} MergedIsStableSort(files: seq<seq<Message>>, low: nat, high: nat)
    ensures Sorted(Merged(files, low, high)) && AllWithin(Merged(files, low, high), low, high)
    ensures forall t: nat :: At(Merged(files, low, high), t) == if low <= t <= high then AllAt(files, t) else []
    decreases high + 1 - low
  {
    if low <= high {
      MergedIsStableSort(files, low + 1, high);
      MergeStaysSorted(files, low, high);
      forall t: nat ensures At(Merged(files, low, high), t) == if low <= t <= high then AllAt(files, t) else [] {
        MergeOneTime(files, low, high, t);
      }
    }
  }

  lemma MergeStaysSorted(files: seq<seq<Message>>, low: nat, high: nat)
    requires low <= high
    requires var rest := Merged(files, low + 1, high); Sorted(rest) && AllWithin(rest, low + 1, high)
    ensures Sorted(Merged(files, low, high)) && AllWithin(Merged(files, low, high), low, high)
  {
    AllAtTimes(files, low);
    SortedConcat(AllAt(files, low), Merged(files, low + 1, high), low + 1);
  }

  lemma MergeOneTime(files: seq<seq<Message>>, low: nat, high: nat, t: nat)
    requires low <= high
    requires At(Merged(files, low + 1, high), t) == if low + 1 <= t <= high then AllAt(files, t) else []
    ensures At(Merged(files, low, high), t) == if low <= t <= high then AllAt(files, t) else []
  {
    AllAtTimes(files, low);
    AtConcat(AllAt(files, low), Merged(files, low + 1, high), t);
  }

  /** What a file contributes; one that could not be opened contributes nothing. */
  ghost function FileOf(r: RecordReader): seq<Message> {
    if r.isValid then Messages(r.sections) else []
  }

  ghost function FilesOf(readers: seq<RecordReader>): seq<seq<Message>> {
    if readers == [] then [] else [FileOf(readers[0])] + FilesOf(readers[1..])
  }

  /** From the given time on, the two have the same messages. */
  ghost predicate SameFrom(a: seq<Message>, b: seq<Message>, time: nat) {
    forall t: nat :: time <= t ==> At(a, t) == At(b, t)
  }

  /** A buffer that has gained exactly the messages of one file in a closed window. */
  ghost predicate Gained(before: seq<Message>, after: seq<Message>, file: seq<Message>, low: nat, high: nat) {
    forall t: nat :: At(after, t) == At(before, t) + if low <= t <= high then At(file, t) else []
  }

  /** In the middle of a window: what the buffer has gained and the reader still has make up the file. */
  ghost predicate Draining(before: seq<Message>, buffer: seq<Message>, left: seq<Message>, file: seq<Message>,
                           low: nat, high: nat)
  {
    forall t: nat ::
      && (low <= t <= high ==> At(buffer, t) + At(left, t) == At(before, t) + At(file, t))
      && (t < low || high < t ==> At(buffer, t) == At(before, t))
      && (high < t ==> At(left, t) == At(file, t))
  }

  lemma LeftAt(left: seq<Message>, low: nat, t: nat, skipped: seq<Message>, m: Message, left': seq<Message>)
    requires left == skipped + ([m] + left') && AllBefore(skipped, low) && low <= t
    ensures At(left, t) == At([m], t) + At(left', t)
  {
    AtConcat(skipped, [m] + left', t);
    AtConcat([m], left', t);
    AtNone(skipped, t);
  }

  lemma DrainMoves(buffer: seq<Message>, left: seq<Message>, low: nat, t: nat,
                   skipped: seq<Message>, m: Message, left': seq<Message>)
    requires Sorted(buffer) && left == skipped + ([m] + left') && AllBefore(skipped, low) && low <= t
    ensures At(Insert(buffer, m), t) + At(left', t) == At(buffer, t) + At(left, t)
  {
    InsertAt(buffer, m, t);
    LeftAt(left, low, t, skipped, m, left');
    Reassociate(At(buffer, t), At([m], t), At(left', t));
  }

  lemma DrainLeaves(buffer: seq<Message>, left: seq<Message>, low: nat, t: nat,
                    skipped: seq<Message>, m: Message, left': seq<Message>)
    requires Sorted(buffer) && left == skipped + ([m] + left') && AllBefore(skipped, low) && t != m.time
    ensures At(Insert(buffer, m), t) == At(buffer, t)
    ensures low <= t ==> At(left', t) == At(left, t)
  {
    InsertAt(buffer, m, t);
    if low <= t {
      LeftAt(left, low, t, skipped, m, left');
    }
  }

  /** One message moves from the reader to the buffer. */
  lemma DrainOne(before: seq<Message>, buffer: seq<Message>, left: seq<Message>, file: seq<Message>,
                 low: nat, high: nat, skipped: seq<Message>, m: Message, left': seq<Message>)
    requires Draining(before, buffer, left, file, low, high) && Sorted(buffer)
    requires left == skipped + ([m] + left') && AllBefore(skipped, low) && low <= m.time <= high
    ensures Draining(before, Insert(buffer, m), left', file, low, high)
  {
    forall t: nat
      ensures low <= t <= high ==> At(Insert(buffer, m), t) + At(left', t) == At(before, t) + At(file, t)
      ensures t < low || high < t ==> At(Insert(buffer, m), t) == At(before, t)
      ensures high < t ==> At(left', t) == At(file, t)
    {
      if low <= t <= high {
        DrainMoves(buffer, left, low, t, skipped, m, left');
      } else {
        DrainLeaves(buffer, left, low, t, skipped, m, left');
      }
    }
  }

  lemma DrainDone(before: seq<Message>, buffer: seq<Message>, left: seq<Message>, file: seq<Message>,
                  low: nat, high: nat, skipped: seq<Message>, left': seq<Message>)
    requires Draining(before, buffer, left, file, low, high)
    requires left == skipped + left' && AllBefore(skipped, low) && NoneWithin(left', low, high) && low <= high
    ensures Gained(before, buffer, file, low, high) && SameFrom(left', file, high + 1)
  {
    forall t: nat
      ensures At(buffer, t) == At(before, t) + if low <= t <= high then At(file, t) else []
      ensures high < t ==> At(left', t) == At(file, t)
    {
      AtConcat(skipped, left', t);
      if low <= t {
        AtNone(skipped, t);
      }
      if low <= t <= high {
        AtNone(left', t);
      }
    }
  }

  /** What a reader still has to give, from the given time on, is what its file has. */
  ghost predicate Synced(r: RecordReader, finished: bool, from: nat)
    reads r
  {
    r.Valid() &&
    if finished || !r.isValid
    then forall t: nat :: from <= t ==> At(FileOf(r), t) == []
    else SameFrom(r.Remaining(), FileOf(r), from)
  }

  function Max(a: nat, b: nat): nat { if a < b then b else a }

  function Min(a: nat, b: nat): nat { if a > b then b else a }

  /** The earliest begin in the headers of the files that could be opened. */
  function MinBegin(readers: seq<RecordReader>): (m: nat)
    ensures m < UINT64_RANGE
  {
    if readers == [] then UINT64_RANGE - 1
    else if readers[0].isValid then Min(readers[0].headerBegin, MinBegin(readers[1..]))
    else MinBegin(readers[1..])
  }

  /** The latest end in the headers of the files that could be opened. */
  function MaxEnd(readers: seq<RecordReader>): nat {
    if readers == [] then 0
    else if readers[0].isValid then Max(readers[0].headerEnd, MaxEnd(readers[1..]))
    else MaxEnd(readers[1..])
  }

  /** The two bounds are the tightest that hold of every file that could be opened. */
  lemma {:induction false} HeaderRangeIsExact(readers: seq<RecordReader>)
    requires forall i :: 0 <= i < |readers| ==> readers[i].headerBegin < UINT64_RANGE
    ensures forall i :: 0 <= i < |readers| && readers[i].isValid ==>
      MinBegin(readers) <= readers[i].headerBegin && readers[i].headerEnd <= MaxEnd(readers)
    ensures MinBegin(readers) == UINT64_RANGE - 1 ||
      exists i :: 0 <= i < |readers| && readers[i].isValid && readers[i].headerBegin == MinBegin(readers)
    ensures MaxEnd(readers) == 0 ||
      exists i :: 0 <= i < |readers| && readers[i].isValid && readers[i].headerEnd == MaxEnd(readers)
  {
    if readers != [] {
      var rest := readers[1..];
      HeaderRangeIsExact(rest);
      if i :| 0 <= i < |rest| && rest[i].isValid && rest[i].headerBegin == MinBegin(rest) {
        assert readers[i + 1] == rest[i];
      }
      if i :| 0 <= i < |rest| && rest[i].isValid && rest[i].headerEnd == MaxEnd(rest) {
        assert readers[i + 1] == rest[i];
      }
      assert forall i :: 0 < i < |readers| ==> readers[i] == rest[i - 1];
    }
  }

  lemma {:induction false} OutsideHeaders(readers: seq<RecordReader>, t: nat)
    requires forall i :: 0 <= i < |readers| ==> readers[i].FileOk()
    requires t < MinBegin(readers) || t > MaxEnd(readers)
    ensures AllAt(FilesOf(readers), t) == []
  {
    if readers != [] {
      AtNone(FileOf(readers[0]), t);
      OutsideHeaders(readers[1..], t);
    }
  }

  lemma {:induction false} HeadersFit(readers: seq<RecordReader>)
    requires forall i :: 0 <= i < |readers| ==> readers[i].headerEnd < UINT64_RANGE
    ensures MaxEnd(readers) < UINT64_RANGE
  {
    if readers != [] {
      HeadersFit(readers[1..]);
    }
  }

  /** Addition of 64-bit unsigned integers. */
  function Add64(a: nat, b: nat): nat { (a + b) % UINT64_RANGE }

  /** The closed end of the window that starts at the given time. */
  function WindowEnd(begin: nat, end: nat): nat {
    if Add64(begin, STEP_TIME_NS) > end then end else Add64(begin, STEP_TIME_NS)
  }

  function NextWindow(begin: nat, end: nat): nat { Add64(WindowEnd(begin, end), 1) }

  /** A window makes progress exactly when neither of its two additions wraps around. */
  lemma WindowAdvances(begin: nat, end: nat)
    requires begin <= end < UINT64_RANGE
    ensures begin < NextWindow(begin, end) <==>
      begin + STEP_TIME_NS < UINT64_RANGE && WindowEnd(begin, end) + 1 < UINT64_RANGE
    ensures begin < NextWindow(begin, end) ==>
      begin <= WindowEnd(begin, end) <= end && NextWindow(begin, end) == WindowEnd(begin, end) + 1
  {
  }

  /** Every window that FillBuffer reaches from here is followed by a later one. Otherwise one of them
      sends it back to an earlier time. */
  ghost predicate AllAdvance(begin: nat, end: nat)
    decreases end + 1 - begin
  {
    begin > end || (begin < NextWindow(begin, end) && AllAdvance(NextWindow(begin, end), end))
  }

  lemma ThisAdvances(begin: nat, end: nat)
    requires begin <= end < UINT64_RANGE && AllAdvance(begin, end)
    ensures begin < NextWindow(begin, end) && AllAdvance(NextWindow(begin, end), end)
    ensures NextWindow(begin, end) <= end + 1
  {
    WindowAdvances(begin, end);
  }

  /** Where the last window of a range starts. */
  function LastWindow(begin: nat, end: nat): nat
    requires begin <= end
  {
    begin + (end - begin) / (STEP_TIME_NS + 1) * (STEP_TIME_NS + 1)
  }

  /** The range leaves room for its last window: what a caller can check. */
  predicate RangeFits(begin: nat, end: nat) {
    begin > end || (end + 1 < UINT64_RANGE && LastWindow(begin, end) + STEP_TIME_NS < UINT64_RANGE)
  }

  lemma LastWindowStays(begin: nat, end: nat)
    requires begin <= end
    ensures LastWindow(begin, end) >= begin
    ensures begin + STEP_TIME_NS >= end ==> LastWindow(begin, end) == begin
    ensures begin + STEP_TIME_NS < end ==> LastWindow(begin + STEP_TIME_NS + 1, end) == LastWindow(begin, end)
  {
    if begin + STEP_TIME_NS < end {
      assert (end - begin) / (STEP_TIME_NS + 1) == (end - (begin + STEP_TIME_NS + 1)) / (STEP_TIME_NS + 1) + 1;
    }
  }

  /** The windows of a range all advance exactly when it leaves room for the last one. */
  lemma {:induction false} RangeFitsExactly(begin: nat, end: nat)
    requires end < UINT64_RANGE
    ensures AllAdvance(begin, end) <==> RangeFits(begin, end)
    decreases end + 1 - begin
  {
    if begin <= end {
      WindowAdvances(begin, end);
      LastWindowStays(begin, end);
      if begin < NextWindow(begin, end) && begin + STEP_TIME_NS < end {
        assert NextWindow(begin, end) == begin + STEP_TIME_NS + 1;
        RangeFitsExactly(begin + STEP_TIME_NS + 1, end);
      }
    }
  }

  /** The last representable time, as a range of its own, sends the windows back to the start of time. */
  lemma LastTimeStartsOver()
    ensures var last := UINT64_RANGE - 1;
      NextWindow(last, last) == STEP_TIME_NS < last && !RangeFits(last, last)
  {
    assert Add64(UINT64_RANGE - 1, STEP_TIME_NS) == STEP_TIME_NS - 1;
  }

  /** Nothing lies outside the headers, so cutting the range down to them loses nothing. */
  lemma CutToHeaders(readers: seq<RecordReader>, begin: nat, end: nat)
    requires forall i :: 0 <= i < |readers| ==> readers[i].FileOk() && readers[i].headerEnd < UINT64_RANGE
    ensures Merged(FilesOf(readers), Max(begin, MinBegin(readers)), Min(end, MaxEnd(readers)))
         == Merged(FilesOf(readers), begin, end)
    ensures MaxEnd(readers) < UINT64_RANGE
  {
    HeadersFit(readers);
    var files, low, high := FilesOf(readers), Max(begin, MinBegin(readers)), Min(end, MaxEnd(readers));
    MergedIsStableSort(files, begin, end);
    MergedIsStableSort(files, low, high);
    forall t: nat ensures At(Merged(files, low, high), t) == At(Merged(files, begin, end), t) {
      if t < MinBegin(readers) || t > MaxEnd(readers) {
        OutsideHeaders(readers, t);
      }
    }
    SortedUnique(Merged(files, low, high), Merged(files, begin, end));
  }

  ghost predicate StartsOver(r: RecordReader)
    reads r
  {
    r.Valid() && r.Remaining() == Messages(r.sections)
  }

  class RecordViewer {
    const readers: seq<RecordReader>
    const channels: set<string>
    var beginTime: nat
    var endTime: nat
    var currBeginTime: nat
    var readersFinished: seq<bool>
    var buffer: seq<Message>

    /** The range asked for is cut down to what the file headers cover. */
    constructor (readers: seq<RecordReader>, beginTime: nat, endTime: nat, channels: set<string>)
      requires forall i, j :: 0 <= i < j < |readers| ==> readers[i] != readers[j]
      requires forall i :: 0 <= i < |readers| ==> readers[i].FileOk() && readers[i].headerEnd < UINT64_RANGE
      requires RangeFits(Max(beginTime, MinBegin(readers)), Min(endTime, MaxEnd(readers)))
      ensures this.readers == readers && this.channels == channels && Idle()
      ensures Merged(Files(), this.beginTime, this.endTime) == Merged(Files(), beginTime, endTime)
    {
      this.readers, this.channels := readers, channels;
      this.beginTime, this.endTime, currBeginTime := beginTime, endTime, 0;
      readersFinished := seq(|readers|, _ => false);
      buffer := [];
      new;
      UpdateTime();
      CutToHeaders(readers, beginTime, endTime);
      RangeFitsExactly(this.beginTime, this.endTime);
    }

    method UpdateTime()
      modifies this`beginTime, this`endTime, this`currBeginTime
      ensures beginTime == Max(old(beginTime), MinBegin(readers)) && endTime == Min(old(endTime), MaxEnd(readers))
      ensures currBeginTime == beginTime
    {
      var minBegin: nat, maxEnd: nat := UINT64_RANGE - 1, 0;
      assert readers[0..] == readers;
      for i := 0 to |readers|
        invariant minBegin < UINT64_RANGE
        invariant Min(minBegin, MinBegin(readers[i..])) == MinBegin(readers)
        invariant Max(maxEnd, MaxEnd(readers[i..])) == MaxEnd(readers)
      {
        assert readers[i..][1..] == readers[i + 1..];
        var reader := readers[i];
        if reader.isValid {
          if minBegin > reader.headerBegin {
            minBegin := reader.headerBegin;
          }
          if maxEnd < reader.headerEnd {
            maxEnd := reader.headerEnd;
          }
        }
      }
      assert readers[|readers|..] == [];
      if beginTime < minBegin {
        beginTime := minBegin;
      }
      if endTime > maxEnd {
        endTime := maxEnd;
      }
      currBeginTime := beginTime;
    }

    /** The inner loop of FillBuffer over one reader: all its messages of the window go to the buffer. */
    method DrainReader(reader: RecordReader, thisBegin: nat, thisEnd: nat)
      requires reader.Valid() && thisBegin <= thisEnd
      requires reader.isValid ==> SameFrom(reader.Remaining(), FileOf(reader), thisBegin)
      requires Sorted(buffer) && AllBefore(buffer, thisEnd + 1)
      modifies this`buffer, reader
      ensures reader.Valid() && Sorted(buffer) && AllBefore(buffer, thisEnd + 1)
      ensures Gained(old(buffer), buffer, FileOf(reader), thisBegin, thisEnd)
      ensures reader.isValid ==> SameFrom(reader.Remaining(), FileOf(reader), thisEnd + 1)
    {
      while true
        invariant reader.Valid() && Sorted(buffer) && AllBefore(buffer, thisEnd + 1)
        invariant reader.isValid ==>
          Draining(old(buffer), buffer, reader.Remaining(), FileOf(reader), thisBegin, thisEnd)
        invariant !reader.isValid ==> buffer == old(buffer)
        decreases |reader.Remaining()|
      {
        ghost var left := reader.Remaining();
        ghost var skipped;
        var message;
        message, skipped := reader.ReadMessage(thisBegin, thisEnd);
        if message == None {
          if reader.isValid {
            DrainDone(old(buffer), buffer, left, FileOf(reader), thisBegin, thisEnd, skipped, reader.Remaining());
          }
          return;
        }
        DrainOne(old(buffer), buffer, left, FileOf(reader), thisBegin, thisEnd, skipped, message.value,
                 reader.Remaining());
        InsertSorted(buffer, message.value);
        buffer := Insert(buffer, message.value);
      }
    }

    ghost function Files(): seq<seq<Message>> { FilesOf(readers) }

    /** The readers are distinct and in good order. */
    ghost predicate ReadersOk()
      reads readers
    {
      && (forall i, j :: 0 <= i < j < |readers| ==> readers[i] != readers[j])
      && (forall i :: 0 <= i < |readers| ==> readers[i].Valid())
    }

    ghost predicate AllSynced(from: nat, upTo: nat, after: nat)
      requires upTo <= |readers| == |readersFinished|
      reads this`readersFinished, readers
    {
      forall i {:trigger readers[i]} :: 0 <= i < |readers| ==>
        Synced(readers[i], readersFinished[i], if i < upTo then after else from)
    }

    ghost predicate Valid()
      reads this, readers
    {
      && ReadersOk() && |readersFinished| == |readers|
      && endTime < UINT64_RANGE && AllAdvance(currBeginTime, endTime)
      && Sorted(buffer) && AllBefore(buffer, currBeginTime)
      && AllSynced(currBeginTime, 0, 0)
    }

    /** The messages still to come, on all channels. */
    ghost function Pending(): seq<Message>
      reads this
    {
      buffer + Merged(Files(), currBeginTime, endTime)
    }

    method RetireReader(i: nat, thisBegin: nat)
      requires Valid() && thisBegin == currBeginTime && i < |readers|
      modifies this`readersFinished, readers[i]
      ensures Valid()
      ensures readersFinished == old(readersFinished)[i := old(readersFinished[i]) || readers[i].headerEnd < thisBegin]
    {
      if !readersFinished[i] && readers[i].headerEnd < thisBegin {
        readersFinished := readersFinished[i := true];
        readers[i].Reset();
        EndedBefore(readers[i], thisBegin);
      }
    }

    /** First loop of a window: readers whose file ends before the window are done. */
    method RetireReaders(thisBegin: nat)
      requires Valid() && thisBegin == currBeginTime
      modifies this`readersFinished, readers
      ensures Valid()
      ensures forall j :: 0 <= j < |readers| ==>
        readersFinished[j] == (old(readersFinished[j]) || readers[j].headerEnd < thisBegin)
    {
      for i := 0 to |readers|
        invariant Valid()
        invariant forall j :: 0 <= j < |readers| ==>
          readersFinished[j] == (old(readersFinished[j]) || (j < i && readers[j].headerEnd < thisBegin))
      {
        RetireReader(i, thisBegin);
      }
    }

    method FillFromReader(i: nat, thisBegin: nat, thisEnd: nat)
      requires ReadersOk() && i < |readers| == |readersFinished| && thisBegin <= thisEnd
      requires Sorted(buffer) && AllBefore(buffer, thisEnd + 1) && AllSynced(thisBegin, i, thisEnd + 1)
      modifies this`buffer, readers[i]
      ensures ReadersOk()
      ensures Sorted(buffer) && AllBefore(buffer, thisEnd + 1) && AllSynced(thisBegin, i + 1, thisEnd + 1)
      ensures Gained(old(buffer), buffer, FileOf(readers[i]), thisBegin, thisEnd)
    {
      assert Synced(readers[i], readersFinished[i], thisBegin);
      if !readersFinished[i] {
        DrainReader(readers[i], thisBegin, thisEnd);
      }
      assert Synced(readers[i], readersFinished[i], thisEnd + 1);
    }

    /** Second loop of a window: every reader that is not done gives its messages of the window. */
    method FillWindow(thisBegin: nat, thisEnd: nat)
      requires Valid() && thisBegin == currBeginTime && thisBegin <= thisEnd
      modifies this`buffer, readers
      ensures ReadersOk() && Sorted(buffer) && AllBefore(buffer, thisEnd + 1)
      ensures AllSynced(thisEnd + 1, 0, 0)
      ensures buffer == old(buffer) + Merged(Files(), thisBegin, thisEnd)
    {
      BeforeLater(buffer, thisBegin, thisEnd + 1);
      for i := 0 to |readers|
        invariant ReadersOk() && Sorted(buffer) && AllBefore(buffer, thisEnd + 1)
        invariant AllSynced(thisBegin, i, thisEnd + 1)
        invariant GainedAll(old(buffer), buffer, FilesOf(readers[..i]), thisBegin, thisEnd)
      {
        ghost var before := buffer;
        FillFromReader(i, thisBegin, thisEnd);
        GainOne(old(buffer), before, buffer, readers, i, thisBegin, thisEnd);
      }
      assert readers[..|readers|] == readers;
      GainedIsMerged(old(buffer), buffer, Files(), thisBegin, thisEnd);
    }

    /** The readers give their messages of one window, and the next window starts one later. */
    method CloseWindow(thisBegin: nat, thisEnd: nat, next: nat)
      requires Valid() && thisBegin == currBeginTime && thisBegin <= thisEnd <= endTime && next == thisEnd + 1
      requires AllAdvance(next, endTime)
      modifies this`buffer, this`currBeginTime, this`readersFinished, readers
      ensures Valid() && currBeginTime == next
      ensures buffer == old(buffer) + Merged(Files(), thisBegin, thisEnd)
    {
      RetireReaders(thisBegin);
      FillWindow(thisBegin, thisEnd);
      SetBegin(next);
    }

    /** One turn of the loop in FillBuffer: the next window, of at most a second, goes to the buffer. */
    method TakeWindow()
      requires Valid() && currBeginTime <= endTime
      modifies this`buffer, this`currBeginTime, this`readersFinished, readers
      ensures Valid() && Pending() == old(Pending())
      ensures old(currBeginTime) < currBeginTime <= endTime + 1
    {
      ThisAdvances(currBeginTime, endTime);
      var thisEnd, next := Window(currBeginTime, endTime);
      CloseWindow(currBeginTime, thisEnd, next);
      WindowOfMerge(old(buffer), buffer, Files(), old(currBeginTime), thisEnd, endTime);
    }

    method SetBegin(time: nat)
      requires ReadersOk() && |readersFinished| == |readers|
      requires endTime < UINT64_RANGE && AllAdvance(time, endTime)
      requires Sorted(buffer) && AllBefore(buffer, time) && AllSynced(time, 0, 0)
      modifies this`currBeginTime
      ensures Valid() && currBeginTime == time
    {
      currBeginTime := time;
    }

    /** Fills the buffer window by window until it is large enough or the range is used up. What is
        still to come does not change; an empty buffer means nothing is. */
    method FillBuffer() returns (filled: bool)
      requires Valid()
      modifies this`buffer, this`currBeginTime, this`readersFinished, readers
      ensures Valid() && Pending() == old(Pending())
      ensures filled == (buffer != []) && (!filled ==> Pending() == [])
      ensures |buffer| >= BUFFER_MIN_SIZE || currBeginTime > endTime
    {
      while WantsMore(currBeginTime, endTime, |buffer|)
        invariant Valid() && Pending() == old(Pending())
        decreases endTime + 1 - currBeginTime
      {
        TakeWindow();
      }
      filled := buffer != [];
    }

    method TakeFirst() returns (msg: Message)
      requires Valid() && buffer != []
      modifies this`buffer
      ensures Valid() && old(Pending()) == [msg] + Pending()
    {
      msg := buffer[0];
      BufferFirst(buffer, Merged(Files(), currBeginTime, endTime), currBeginTime);
      buffer := buffer[1..];
    }

    /** The next message on a selected channel, or none when there is no more. */
    method Update() returns (message: Option<Message>)
      requires Valid()
      modifies this`buffer, this`currBeginTime, this`readersFinished, readers
      ensures Valid()
      ensures message.Some? ==>
        Selected(old(Pending()), channels) == [message.value] + Selected(Pending(), channels)
      ensures message.None? ==> Selected(old(Pending()), channels) == [] && Pending() == []
    {
      while true
        invariant Valid() && Selected(Pending(), channels) == Selected(old(Pending()), channels)
        decreases |Pending()|
      {
        if buffer == [] {
          var filled := FillBuffer();
          if !filled {
            return None;
          }
        }
        ghost var before := Pending();
        var msg := TakeFirst();
        SelectedFirst(before, msg, Pending(), channels);
        if channels == {} || msg.channel in channels {
          return Some(msg);
        }
      }
    }

    method ResetReaders()
      requires Idle()
      modifies this`readersFinished, readers
      ensures ReadersOk() && |readersFinished| == |readers|
      ensures forall i :: 0 <= i < |readers| ==> !readersFinished[i] && StartsOver(readers[i])
    {
      for i := 0 to |readers|
        invariant forall j :: 0 <= j < i ==> StartsOver(readers[j])
      {
        readers[i].Reset();
      }
      readersFinished := seq(|readers|, _ => false);
    }

    lemma StartedIsSynced()
      requires |readersFinished| == |readers|
      requires forall i :: 0 <= i < |readers| ==> !readersFinished[i] && StartsOver(readers[i])
      ensures AllSynced(beginTime, 0, 0)
    {
    }

    /** Starts over from the beginning of the range. */
    method Reset()
      requires Idle()
      modifies this`buffer, this`currBeginTime, this`readersFinished, readers
      ensures Valid() && Pending() == Merged(Files(), beginTime, endTime)
    {
      ResetReaders();
      StartedIsSynced();
      Restart();
    }

    /** Resets the window and clears the buffer. */
    method Restart()
      requires ReadersOk() && |readersFinished| == |readers|
      requires endTime < UINT64_RANGE && AllAdvance(beginTime, endTime)
      requires AllSynced(beginTime, 0, 0)
      modifies this`buffer, this`currBeginTime
      ensures Valid() && Pending() == Merged(Files(), beginTime, endTime)
    {
      currBeginTime := beginTime;
      buffer := [];
      assert Pending() == Merged(Files(), beginTime, endTime);
    }

    /** What the constructor promises: files in good order, and a range whose windows all advance. */
    ghost predicate Idle()
      reads this`beginTime, this`endTime
    {
      && (forall i, j :: 0 <= i < j < |readers| ==> readers[i] != readers[j])
      && (forall i :: 0 <= i < |readers| ==> readers[i].FileOk())
      && endTime < UINT64_RANGE && AllAdvance(beginTime, endTime)
    }

    /** The loop a user writes from begin() to end(): what it sees is the stable merge of the messages of
        all files, in the range, on the selected channels. */
    method Iterate() returns (seen: seq<Message>)
      requires Idle()
      modifies this`buffer, this`currBeginTime, this`readersFinished, readers
      ensures seen == Selected(Merged(Files(), beginTime, endTime), channels)
    {
      Reset();
      seen := [];
      if beginTime > endTime {
        return;
      }
      while true
        invariant Valid()
        invariant seen + Selected(Pending(), channels) == Selected(Merged(Files(), beginTime, endTime), channels)
        decreases |Selected(Pending(), channels)|
      {
        ghost var before := Pending();
        var message := Update();
        if message == None {
          return;
        }
        Reassociate(seen, [message.value], Selected(Pending(), channels));
        seen := seen + [message.value];
      }
    }
  }

  lemma SelectedFirst(all: seq<Message>, first: Message, rest: seq<Message>, channels: set<string>)
    requires all == [first] + rest
    ensures Selected(all, channels) ==
      (if channels == {} || first.channel in channels then [first] else []) + Selected(rest, channels)
  {
    assert all[1..] == rest;
  }

  /** Opening a viewer on several readers and iterating it: exactly the messages in the range that was
      asked for, on the selected channels, by time, then reader order, then file order. */
  method ViewRecords(readers: seq<RecordReader>, beginTime: nat, endTime: nat, channels: set<string>)
    returns (seen: seq<Message>)
    requires forall i, j :: 0 <= i < j < |readers| ==> readers[i] != readers[j]
    requires forall i :: 0 <= i < |readers| ==> readers[i].FileOk() && readers[i].headerEnd < UINT64_RANGE
    requires RangeFits(Max(beginTime, MinBegin(readers)), Min(endTime, MaxEnd(readers)))
    modifies readers
    ensures seen == Selected(Merged(FilesOf(readers), beginTime, endTime), channels)
  {
    var viewer := new RecordViewer(readers, beginTime, endTime, channels);
    seen := viewer.Iterate();
  }

  /** Where the n-th window after this one starts. */
  function WindowAfter(begin: nat, end: nat, n: nat): nat
    decreases n
  {
    if n == 0 then begin else WindowAfter(NextWindow(begin, end), end, n - 1)
  }

  /** What FillBuffer's loop goes on for. */
  predicate WantsMore(curr: nat, end: nat, buffered: nat) { curr <= end && buffered < BUFFER_MIN_SIZE }

  lemma {:induction false} WindowsAre64Bit(begin: nat, end: nat, n: nat)
    requires begin < UINT64_RANGE
    ensures WindowAfter(begin, end, n) < UINT64_RANGE
    decreases n
  {
    if n > 0 {
      WindowsAre64Bit(NextWindow(begin, end), end, n - 1);
    }
  }

  /** A range that ends at the last time is never used up. However many windows have been read, FillBuffer
      goes on until the buffer is full, so it never answers that there is nothing left. */
  lemma LastTimeIsNeverUsedUp(begin: nat, n: nat, buffered: nat)
    requires begin < UINT64_RANGE
    ensures WantsMore(WindowAfter(begin, UINT64_RANGE - 1, n), UINT64_RANGE - 1, buffered) <==>
      buffered < BUFFER_MIN_SIZE
  {
    WindowsAre64Bit(begin, UINT64_RANGE - 1, n);
  }

  /** Any other range ends when its windows all advance. */
  lemma {:induction false} FittingRangeEnds(begin: nat, end: nat) returns (n: nat)
    requires end < UINT64_RANGE && RangeFits(begin, end)
    ensures WindowAfter(begin, end, n) > end
    decreases end + 1 - begin
  {
    if begin > end {
      n := 0;
    } else {
      RangeFitsExactly(begin, end);
      RangeFitsExactly(NextWindow(begin, end), end);
      n := FittingRangeEnds(NextWindow(begin, end), end);
      n := n + 1;
    }
  }

  /** A buffer that takes in the first window of a merge leaves the rest of it to come. */
  lemma WindowOfMerge(before: seq<Message>, after: seq<Message>, files: seq<seq<Message>>,
                      low: nat, mid: nat, high: nat)
    requires low <= mid <= high && after == before + Merged(files, low, mid)
    ensures after + Merged(files, mid + 1, high) == before + Merged(files, low, high)
  {
    MergedSplit(files, low, mid, high);
    Reassociate(before, Merged(files, low, mid), Merged(files, mid + 1, high));
  }

  /** The bounds of a window and of the next one, computed in 64 bits. */
  method Window(begin: nat, end: nat) returns (thisEnd: nat, next: nat)
    requires begin <= end < UINT64_RANGE && begin < NextWindow(begin, end)
    ensures begin <= thisEnd <= end && next == thisEnd + 1 == NextWindow(begin, end)
    ensures thisEnd == end || thisEnd == begin + STEP_TIME_NS
  {
    WindowAdvances(begin, end);
    thisEnd := Add64(begin, STEP_TIME_NS);
    if thisEnd > end {
      thisEnd := end;
    }
    // the window is closed, so the next one starts one later
    next := Add64(thisEnd, 1);
  }

  lemma {:induction false} MergedSplit(files: seq<seq<Message>>, low: nat, mid: nat, high: nat)
    requires low <= mid + 1 && mid <= high
    ensures Merged(files, low, high) == Merged(files, low, mid) + Merged(files, mid + 1, high)
    decreases high + 1 - low
  {
    if low <= mid {
      MergedSplit(files, low + 1, mid, high);
      Reassociate(AllAt(files, low), Merged(files, low + 1, mid), Merged(files, mid + 1, high));
    }
  }

  lemma EndedBefore(r: RecordReader, time: nat)
    requires r.FileOk() && r.headerEnd < time
    ensures forall t: nat :: time <= t ==> At(FileOf(r), t) == []
  {
    forall t: nat | time <= t ensures At(FileOf(r), t) == [] {
      AtNone(FileOf(r), t);
    }
  }

  lemma BeforeLater(s: seq<Message>, time: nat, later: nat)
    requires AllBefore(s, time) && time <= later
    ensures AllBefore(s, later)
  {
  }

  ghost predicate GainedAll(before: seq<Message>, after: seq<Message>, files: seq<seq<Message>>, low: nat, high: nat) {
    forall t: nat :: At(after, t) == At(before, t) + if low <= t <= high then AllAt(files, t) else []
  }

  lemma {:induction false} FilesSnoc(readers: seq<RecordReader>, i: nat, t: nat)
    requires i < |readers|
    ensures AllAt(FilesOf(readers[..i + 1]), t) == AllAt(FilesOf(readers[..i]), t) + At(FileOf(readers[i]), t)
  {
    if i == 0 {
      assert readers[..1] == [readers[0]] && readers[..0] == [];
      assert FilesOf([readers[0]]) == [FileOf(readers[0])];
      assert AllAt([FileOf(readers[0])], t) == At(FileOf(readers[0]), t) + AllAt([], t);
    } else {
      FilesSnoc(readers[1..], i - 1, t);
      assert readers[..i + 1][1..] == readers[1..][..i] && readers[..i][1..] == readers[1..][..i - 1];
      Reassociate(At(FileOf(readers[0]), t), AllAt(FilesOf(readers[1..][..i - 1]), t), At(FileOf(readers[i]), t));
    }
  }

  lemma GainOne(start: seq<Message>, before: seq<Message>, after: seq<Message>, readers: seq<RecordReader>, i: nat,
                low: nat, high: nat)
    requires i < |readers| && GainedAll(start, before, FilesOf(readers[..i]), low, high)
    requires Gained(before, after, FileOf(readers[i]), low, high)
    ensures GainedAll(start, after, FilesOf(readers[..i + 1]), low, high)
  {
    forall t: nat
      ensures At(after, t) == At(start, t) + if low <= t <= high then AllAt(FilesOf(readers[..i + 1]), t) else []
    {
      FilesSnoc(readers, i, t);
      Reassociate(At(start, t), AllAt(FilesOf(readers[..i]), t), At(FileOf(readers[i]), t));
    }
  }

  /** The window of the buffer is the window of the reference merge. */
  lemma GainedIsMerged(before: seq<Message>, after: seq<Message>, files: seq<seq<Message>>, low: nat, high: nat)
    requires GainedAll(before, after, files, low, high)
    requires Sorted(before) && AllBefore(before, low) && Sorted(after)
    ensures after == before + Merged(files, low, high)
  {
    var m := Merged(files, low, high);
    MergedIsStableSort(files, low, high);
    SortedConcat(before, m, low);
    forall t: nat ensures At(after, t) == At(before + m, t) {
      AtConcat(before, m, t);
    }
    SortedUnique(after, before + m);
  }
}
