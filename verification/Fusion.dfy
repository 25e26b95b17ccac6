/** Fusing channels, `cyber/data/fusion/all_latest.h`: every message on the primary channel is paired with
    the latest message of each other channel. The dispatch of one message is one step. */
module Fusion {
  import opened DataPath
  import opened Helpers

  /** One dispatched message, on the primary channel or on one of the others. */
  datatype Arrival<T> = Primary(m: T) | Other(channel: nat, m: T)

  /** A tuple: the primary message and one message of each other channel. */
  datatype Fused<T> = Fused(primary: T, others: seq<T>)

  /** What has arrived on one of the other channels. */
  function Received<T>(arrivals: seq<Arrival<T>>, channel: nat): seq<T> {
    if arrivals == [] then []
    else
      var n := |arrivals| - 1;
      var a := arrivals[n];
      Received(arrivals[..n], channel) + if a.Other? && a.channel == channel then [a.m] else []
  }

  function Primaries<T>(arrivals: seq<Arrival<T>>): seq<T> {
    if arrivals == [] then []
    else
      var n := |arrivals| - 1;
      Primaries(arrivals[..n]) + if arrivals[n].Primary? then [arrivals[n].m] else []
  }

  /** Every other channel has received something. */
  predicate AllReceived<T>(arrivals: seq<Arrival<T>>, channels: nat) {
    forall c :: 0 <= c < channels ==> |Received(arrivals, c)| > 0
  }

  /** The positions that a primary message arriving now is paired with. */
  function LatestPositions<T>(arrivals: seq<Arrival<T>>, channels: nat): (p: seq<nat>)
    ensures |p| == channels && forall c :: 0 <= c < channels ==> p[c] == |Received(arrivals, c)|
  {
    seq(channels, c requires 0 <= c => |Received(arrivals, c)|)
  }

  /** For each tuple of the fused stream: which primary message, and which message of each channel,
      counted from 1. This is what fusion means, without buffers. */
  datatype Pairing = Pairing(primary: nat, others: seq<nat>)

  function Pairings<T>(arrivals: seq<Arrival<T>>, channels: nat): (pairs: seq<Pairing>)
    ensures forall i :: 0 <= i < |pairs| ==> |pairs[i].others| == channels
  {
    if arrivals == [] then []
    else
      var n := |arrivals| - 1;
      var before := arrivals[..n];
      Pairings(before, channels) +
      if arrivals[n].Primary? && AllReceived(before, channels)
      then [Pairing(|Primaries(arrivals)|, LatestPositions(before, channels))]
      else []
  }

  /** A tuple has the messages its pairing names. */
  ghost predicate Matches<T>(f: Fused<T>, p: Pairing, arrivals: seq<Arrival<T>>, channels: nat) {
    && 1 <= p.primary <= |Primaries(arrivals)| && f.primary == Primaries(arrivals)[p.primary - 1]
    && |f.others| == |p.others| == channels
    && forall c :: 0 <= c < channels ==>
         1 <= p.others[c] <= |Received(arrivals, c)| && f.others[c] == Received(arrivals, c)[p.others[c] - 1]
  }

  /** How many primary messages came before some other channel had its first message. */
  function Unpaired<T>(arrivals: seq<Arrival<T>>, channels: nat): nat {
    if arrivals == [] then 0
    else
      var n := |arrivals| - 1;
      Unpaired(arrivals[..n], channels) +
      if arrivals[n].Primary? && !AllReceived(arrivals[..n], channels) then 1 else 0
  }

  lemma ReceivedGrows<T>(arrivals: seq<Arrival<T>>, channel: nat)
    requires arrivals != []
    ensures Received(arrivals[..|arrivals| - 1], channel) <= Received(arrivals, channel)
  {
  }

  predicate ArrivesOn<T>(a: Arrival<T>, channel: nat) { a.Other? && a.channel == channel }

  /** The last message received is that of the last arrival on the channel. */
  lemma {:induction false} LatestIsTheLastArrival<T>(arrivals: seq<Arrival<T>>, channel: nat, i: nat)
    requires i < |arrivals| && ArrivesOn(arrivals[i], channel)
    requires forall j :: i < j < |arrivals| ==> !ArrivesOn(arrivals[j], channel)
    ensures var r := Received(arrivals, channel); r != [] && r[|r| - 1] == arrivals[i].m
    decreases |arrivals|
  {
    var before := arrivals[..|arrivals| - 1];
    if i < |arrivals| - 1 {
      assert !ArrivesOn(arrivals[|arrivals| - 1], channel);
      LatestIsTheLastArrival(before, channel, i);
    }
  }

  lemma {:induction false} ReceivedNothing<T>(arrivals: seq<Arrival<T>>, channel: nat)
    ensures Received(arrivals, channel) == [] <==> forall i :: 0 <= i < |arrivals| ==> !ArrivesOn(arrivals[i], channel)
    decreases |arrivals|
  {
    if arrivals != [] {
      var n := |arrivals| - 1;
      ReceivedNothing(arrivals[..n], channel);
      assert forall i :: 0 <= i < n ==> arrivals[..n][i] == arrivals[i];
    }
  }

  predicate HasArrival<T>(arrivals: seq<Arrival<T>>, channel: nat) {
    exists i :: 0 <= i < |arrivals| && ArrivesOn(arrivals[i], channel)
  }

  /** All channels have received exactly when each has had an arrival. */
  lemma AllReceivedExactly<T>(arrivals: seq<Arrival<T>>, channels: nat)
    ensures AllReceived(arrivals, channels) <==> forall c :: 0 <= c < channels ==> HasArrival(arrivals, c)
  {
    forall c | 0 <= c < channels
      ensures |Received(arrivals, c)| > 0 <==> HasArrival(arrivals, c)
    {
      ReceivedNothing(arrivals, c);
    }
  }

  lemma AllReceivedStays<T>(arrivals: seq<Arrival<T>>, channels: nat)
    requires arrivals != [] && AllReceived(arrivals[..|arrivals| - 1], channels)
    ensures AllReceived(arrivals, channels)
  {
    forall c | 0 <= c < channels ensures |Received(arrivals, c)| > 0 {
      ReceivedGrows(arrivals, c);
    }
  }

  lemma {:induction false} NoneUnpairedLater<T>(arrivals: seq<Arrival<T>>, channels: nat)
    ensures !AllReceived(arrivals, channels) ==>
      Pairings(arrivals, channels) == [] && Unpaired(arrivals, channels) == |Primaries(arrivals)|
  {
    if arrivals != [] && !AllReceived(arrivals, channels) {
      var before := arrivals[..|arrivals| - 1];
      if AllReceived(before, channels) {
        AllReceivedStays(arrivals, channels);
      }
      NoneUnpairedLater(before, channels);
    }
  }

  /** Over any run: only the primary messages that precede the first message of some other channel go
      unpaired. They are the first ones; every later one is paired exactly once, in order. */
  lemma {:induction false} PairsAllButTheFirst<T>(arrivals: seq<Arrival<T>>, channels: nat)
    ensures var pairs, u := Pairings(arrivals, channels), Unpaired(arrivals, channels);
      && |pairs| + u == |Primaries(arrivals)|
      && forall i :: 0 <= i < |pairs| ==> pairs[i].primary == u + i + 1
  {
    if arrivals != [] {
      var n := |arrivals| - 1;
      var before := arrivals[..n];
      PairsAllButTheFirst(before, channels);
      NoneUnpairedLater(before, channels);
    }
  }

  /** Every primary message that comes when all channels have received is paired, with the positions that
      are the latest then. */
  lemma {:induction false} PrimaryIsPaired<T>(arrivals: seq<Arrival<T>>, channels: nat, a: nat)
    requires a < |arrivals| && arrivals[a].Primary? && AllReceived(arrivals[..a], channels)
    ensures var pairs, before := Pairings(arrivals, channels), arrivals[..a];
      var i := |Pairings(before, channels)|;
      i < |pairs| && pairs[i] == Pairing(|Primaries(before)| + 1, LatestPositions(before, channels))
    decreases |arrivals|
  {
    var n := |arrivals| - 1;
    if a < n {
      assert arrivals[..n][..a] == arrivals[..a];
      PrimaryIsPaired(arrivals[..n], channels, a);
    }
  }

  /** No component is further on in p than in q. */
  predicate NotAfter(p: seq<nat>, q: seq<nat>) {
    |p| == |q| && forall c :: 0 <= c < |p| ==> p[c] <= q[c]
  }

  /** Each tuple takes positions no earlier than the tuples before it, and none beyond the latest. */
  predicate NeverBack(pairs: seq<Pairing>, latest: seq<nat>) {
    && (forall i :: 0 <= i < |pairs| ==> NotAfter(pairs[i].others, latest))
    && (forall i, j :: 0 <= i < j < |pairs| ==> NotAfter(pairs[i].others, pairs[j].others))
  }

  lemma NeverBackExtend(pairs: seq<Pairing>, pairs': seq<Pairing>, latest: seq<nat>, latest': seq<nat>)
    requires NeverBack(pairs, latest) && NotAfter(latest, latest')
    requires pairs' == pairs
      || (pairs' != [] && pairs'[..|pairs'| - 1] == pairs && pairs'[|pairs'| - 1].others == latest)
    ensures NeverBack(pairs', latest')
  {
    forall i | 0 <= i < |pairs'| ensures NotAfter(pairs'[i].others, latest') {
      assert i < |pairs| ==> pairs'[i] == pairs[i] && NotAfter(pairs[i].others, latest);
    }
    forall i, j | 0 <= i < j < |pairs'| ensures NotAfter(pairs'[i].others, pairs'[j].others) {
      assert pairs'[i] == pairs[i] && NotAfter(pairs[i].others, latest);
      assert j < |pairs| ==> pairs'[j] == pairs[j];
    }
  }

  /** Over any run, the positions taken from the other channels never go back along the fused stream,
      and are never ahead of what has been received. */
  lemma {:induction false} PositionsNeverGoBack<T>(arrivals: seq<Arrival<T>>, channels: nat)
    ensures NeverBack(Pairings(arrivals, channels), LatestPositions(arrivals, channels))
  {
    if arrivals != [] {
      var before := arrivals[..|arrivals| - 1];
      PositionsNeverGoBack(before, channels);
      var latest, latest' := LatestPositions(before, channels), LatestPositions(arrivals, channels);
      assert NotAfter(latest, latest') by {
        forall c | 0 <= c < channels ensures |Received(before, c)| <= |Received(arrivals, c)| {
          ReceivedGrows(arrivals, c);
        }
      }
      var pairs, pairs' := Pairings(before, channels), Pairings(arrivals, channels);
      assert pairs' == pairs || pairs'[..|pairs'| - 1] == pairs;
      NeverBackExtend(pairs, pairs', latest, latest');
    }
  }

  /** The tuples are, in order, those of the pairings. */
  ghost predicate FusedOk<T>(tuples: seq<Fused<T>>, arrivals: seq<Arrival<T>>, channels: nat) {
    var pairs := Pairings(arrivals, channels);
    |tuples| == |pairs| && forall i :: 0 <= i < |pairs| ==> Matches(tuples[i], pairs[i], arrivals, channels)
  }

  lemma TupleMatches<T>(tuples: seq<Fused<T>>, arrivals: seq<Arrival<T>>, channels: nat, i: nat)
    requires FusedOk(tuples, arrivals, channels) && i < |tuples|
    ensures |Pairings(arrivals, channels)| == |tuples|
    ensures Matches(tuples[i], Pairings(arrivals, channels)[i], arrivals, channels)
  {
  }

  lemma MatchesStays<T>(f: Fused<T>, p: Pairing, arrivals: seq<Arrival<T>>, channels: nat, a: Arrival<T>)
    requires Matches(f, p, arrivals, channels)
    ensures Matches(f, p, arrivals + [a], channels)
  {
    var after := arrivals + [a];
    assert after[..|arrivals|] == arrivals;
    forall c | 0 <= c < channels
      ensures 1 <= p.others[c] <= |Received(after, c)| && f.others[c] == Received(after, c)[p.others[c] - 1]
    {
      ReceivedGrows(after, c);
    }
  }

  /** An arrival that makes no tuple: on another channel, or before all channels have received. */
  lemma NoTuple<T>(tuples: seq<Fused<T>>, arrivals: seq<Arrival<T>>, channels: nat, a: Arrival<T>)
    requires FusedOk(tuples, arrivals, channels) && (a.Other? || !AllReceived(arrivals, channels))
    ensures FusedOk(tuples, arrivals + [a], channels)
  {
    assert (arrivals + [a])[..|arrivals|] == arrivals;
    forall i | 0 <= i < |tuples| ensures Matches(tuples[i], Pairings(arrivals, channels)[i], arrivals + [a], channels) {
      MatchesStays(tuples[i], Pairings(arrivals, channels)[i], arrivals, channels, a);
    }
  }

  /** A primary message with the latest message of every channel makes the next tuple. */
  lemma NextTuple<T>(tuples: seq<Fused<T>>, arrivals: seq<Arrival<T>>, channels: nat, m: T, latest: seq<T>)
    requires FusedOk(tuples, arrivals, channels) && |latest| == channels
    requires forall c :: 0 <= c < channels ==>
      var r := Received(arrivals, c); |r| > 0 && latest[c] == r[|r| - 1]
    ensures FusedOk(tuples + [Fused(m, latest)], arrivals + [Primary(m)], channels)
  {
    var after, pairs := arrivals + [Primary(m)], Pairings(arrivals, channels);
    assert after[..|arrivals|] == arrivals;
    var next := Pairing(|Primaries(after)|, LatestPositions(arrivals, channels));
    assert Pairings(after, channels) == pairs + [next];
    forall c | 0 <= c < channels ensures Received(after, c) == Received(arrivals, c) {
      assert Received(arrivals, c) + [] == Received(arrivals, c);
    }
    assert Matches(Fused(m, latest), next, after, channels);
    forall i | 0 <= i < |tuples| ensures Matches(tuples[i], pairs[i], after, channels) {
      MatchesStays(tuples[i], pairs[i], arrivals, channels, Primary(m));
    }
  }

  class AllLatest<T(0)> {
    const others: seq<CacheBuffer<T>>          // one ring per other channel
    const fusion: ChannelBuffer<Fused<T>>      // the ring of tuples, as large as the primary's
    ghost var arrivals: seq<Arrival<T>>        // every message dispatched so far

    ghost predicate Separate() {
      && (forall i, j :: 0 <= i < j < |others| ==> others[i] != others[j] && others[i].buffer != others[j].buffer)
      && (forall i :: 0 <= i < |others| ==>
            others[i] as object != fusion.buffer && others[i].buffer as object != fusion.buffer.buffer)
    }

    ghost predicate Valid()
      reads this, fusion.buffer, fusion.buffer.buffer, others, set i | 0 <= i < |others| :: others[i].buffer
    {
      && Separate()
      && fusion.buffer.Valid()
      && (forall i :: 0 <= i < |others| ==> others[i].Valid() && others[i].history == Received(arrivals, i))
      && FusedOk(fusion.buffer.history, arrivals, |others|)
    }

    constructor (primarySize: nat, sizes: seq<nat>)
      ensures Valid() && arrivals == [] && |others| == |sizes| && fusion.buffer.size == primarySize
    {
      var rings: seq<CacheBuffer<T>> := [];
      for i := 0 to |sizes|
        invariant |rings| == i
        invariant forall j :: 0 <= j < i ==> rings[j].Valid() && rings[j].history == [] && allocated(rings[j].buffer)
        invariant forall j, k :: 0 <= j < k < i ==> rings[j] != rings[k] && rings[j].buffer != rings[k].buffer
      {
        var ring := new CacheBuffer<T>(sizes[i]);
        rings := rings + [ring];
      }
      var tuples := new CacheBuffer<Fused<T>>(primarySize);
      others := rings;
      fusion := new ChannelBuffer<Fused<T>>(tuples);
      arrivals := [];
    }

    /** The callback that Fill of the primary ring runs instead of storing the message. */
    method FillPrimary(m: T)
      requires Valid()
      modifies this, fusion.buffer, fusion.buffer.buffer
      ensures Valid() && arrivals == old(arrivals) + [Primary(m)]
    {
      var latest := AllLatestMessages();
      if latest == None {
        NoTuple(fusion.buffer.history, arrivals, |others|, Primary(m));
      } else {
        NextTuple(fusion.buffer.history, arrivals, |others|, m, latest.value);
        fusion.buffer.Fill(Fused(m, latest.value));
      }
      ReceivedPrimary(arrivals, m);
      arrivals := arrivals + [Primary(m)];
    }

    /** A message on another channel just goes to its ring. */
    method FillOther(channel: nat, m: T)
      requires Valid() && channel < |others|
      modifies this, others[channel], others[channel].buffer
      ensures Valid() && arrivals == old(arrivals) + [Other(channel, m)]
    {
      NoTuple(fusion.buffer.history, arrivals, |others|, Other(channel, m));
      ReceivedOther(arrivals, channel, m);
      others[channel].Fill(m);
      arrivals := arrivals + [Other(channel, m)];
    }

    /** AllLatest::Fusion: the tuple at the reader's index is the pairing of that number. As in Fetch, an
        index past the next one is not checked. */
    method Fusion(index: nat) returns (tuple: Option<Fused<T>>, index': nat)
      requires Valid()
      ensures var pairs := Pairings(arrivals, |others|);
        match FetchAt(index, |pairs|, fusion.buffer.size)
        case NothingNew => tuple == None && index' == index
        case Deliver(p) =>
          var q := if p <= |pairs| then p else NewestInSlot(p, |pairs|, fusion.buffer.size + 1);
          && tuple.Some? && index' == p >= 1
          && (q >= 1 ==> Matches(tuple.value, pairs[q - 1], arrivals, |others|))
    {
      tuple, index' := fusion.Fetch(index);
      ghost var n := |fusion.buffer.history|;
      ghost var q := if index' <= n then index' else NewestInSlot(index', n, fusion.buffer.size + 1);
      if tuple.Some? && q >= 1 {
        TupleMatches(fusion.buffer.history, arrivals, |others|, q - 1);
      }
    }

    /** The latest message of every other channel, unless one of them has none. */
    method AllLatestMessages() returns (latest: Option<seq<T>>)
      requires Valid()
      ensures latest.None? <==> !AllReceived(arrivals, |others|)
      ensures latest.Some? ==> |latest.value| == |others|
      ensures latest.Some? ==> forall c :: 0 <= c < |others| ==>
        var r := Received(arrivals, c); |r| > 0 && latest.value[c] == r[|r| - 1]
    {
      var got: seq<T> := [];
      for i := 0 to |others|
        invariant |got| == i
        invariant forall c :: 0 <= c < i ==> var r := Received(arrivals, c); |r| > 0 && got[c] == r[|r| - 1]
      {
        var channel := new ChannelBuffer<T>(others[i]);
        var one := channel.Latest();
        if one == None {
          assert |Received(arrivals, i)| == 0;
          return None;
        }
        got := got + [one.value];
      }
      latest := Some(got);
    }
  }

  lemma ReceivedPrimary<T>(arrivals: seq<Arrival<T>>, m: T)
    ensures forall c: nat :: Received(arrivals + [Primary(m)], c) == Received(arrivals, c)
  {
    assert (arrivals + [Primary(m)])[..|arrivals|] == arrivals;
  }

  lemma ReceivedOther<T>(arrivals: seq<Arrival<T>>, channel: nat, m: T)
    ensures forall c: nat ::
      Received(arrivals + [Other(channel, m)], c) == Received(arrivals, c) + (if c == channel then [m] else [])
  {
    assert (arrivals + [Other(channel, m)])[..|arrivals|] == arrivals;
  }
}
