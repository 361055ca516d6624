/** The reactor mesh: bounded per-shard lanes, merged by global sequence number.  It is
    proved to be one list of the accepted envelopes, drained in the order of acceptance
    exactly where numbers that are shared, once the counter has saturated, do not matter. */
module Mesh {
  import opened Basics

  datatype Task = HostcallComplete(callId: string) | InboundEvent(eventId: string)
  datatype Envelope = Envelope(globalSeq: nat, shardSeq: nat, shardId: nat, task: Task)
  datatype Backpressure = Backpressure(shardId: nat, depth: nat, capacity: nat)

  // ---- The list of accepted envelopes and its routes ----

  /** The envelopes for one shard, in order of acceptance. */
  function Routed(fifo: seq<Envelope>, shard: nat): seq<Envelope> {
    if fifo == [] then []
    else (if fifo[0].shardId == shard then [fifo[0]] else []) + Routed(fifo[1..], shard)
  }

  /** `fifo` without the first `n` envelopes for one shard. */
  function Skip(fifo: seq<Envelope>, shard: nat, n: nat): seq<Envelope> {
    if fifo == [] || n == 0 then fifo
    else if fifo[0].shardId == shard then Skip(fifo[1..], shard, n - 1)
    else [fifo[0]] + Skip(fifo[1..], shard, n)
  }

  predicate Precedes(a: Envelope, b: Envelope, max: nat) {
    a.globalSeq < b.globalSeq || a.globalSeq == b.globalSeq == max
  }

  /** Numbers increase along the list and stay below the next one, until the counter is stuck
      at its maximum. */
  ghost predicate Numbered(fifo: seq<Envelope>, next: nat, max: nat) {
    && (forall i, j | 0 <= i < j < |fifo| :: Precedes(fifo[i], fifo[j], max))
    && (forall e | e in fifo :: e.globalSeq < next || e.globalSeq == next == max)
  }

  /** The lanes hold exactly the routed parts of the list. */
  ghost predicate Refines(fifo: seq<Envelope>, queues: seq<seq<Envelope>>, next: nat, max: nat) {
    && Numbered(fifo, next, max)
    && (forall e | e in fifo :: e.shardId < |queues|)
    && (forall s | 0 <= s < |queues| :: queues[s] == Routed(fifo, s))
  }

  lemma {:induction false} RoutedAppend(fifo: seq<Envelope>, e: Envelope, shard: nat)
    ensures Routed(fifo + [e], shard) == Routed(fifo, shard) + if e.shardId == shard then [e] else []
  {
    if fifo != [] {
      assert (fifo + [e])[1..] == fifo[1..] + [e];
      RoutedAppend(fifo[1..], e, shard);
    }
  }

  lemma {:induction false} RoutedMembers(fifo: seq<Envelope>, shard: nat)
    ensures forall e | e in Routed(fifo, shard) :: e in fifo && e.shardId == shard
    ensures forall e | e in fifo && e.shardId == shard :: e in Routed(fifo, shard)
  {
    if fifo != [] {
      RoutedMembers(fifo[1..], shard);
    }
  }

  lemma RoutedCons(head: Envelope, tail: seq<Envelope>, shard: nat)
    ensures Routed([head] + tail, shard) == (if head.shardId == shard then [head] else []) + Routed(tail, shard)
  {
    assert ([head] + tail)[1..] == tail;
  }

  lemma {:induction false} SkipRoutes(fifo: seq<Envelope>, shard: nat, n: nat, other: nat)
    requires n <= |Routed(fifo, shard)|
    ensures Routed(Skip(fifo, shard, n), other)
            == if other == shard then Routed(fifo, shard)[n..] else Routed(fifo, other)
  {
    if fifo != [] && n > 0 {
      var head, tail := fifo[0], fifo[1..];
      assert fifo == [head] + tail;
      SkipUnfold(head, tail, shard, n);
      hide Routed, Skip;
      RoutedCons(head, tail, shard);
      RoutedCons(head, tail, other);
      if head.shardId == shard {
        SkipRoutes(tail, shard, n - 1, other);
      } else {
        SkipRoutes(tail, shard, n, other);
        RoutedCons(head, Skip(tail, shard, n), other);
      }
    }
  }

  lemma SkipUnfold(head: Envelope, tail: seq<Envelope>, shard: nat, n: nat)
    requires n > 0
    ensures Skip([head] + tail, shard, n)
            == if head.shardId == shard then Skip(tail, shard, n - 1) else [head] + Skip(tail, shard, n)
  {
    assert ([head] + tail)[1..] == tail;
  }

  /** The lane depths, summed. */
  function Depth(queues: seq<seq<Envelope>>): nat {
    if queues == [] then 0 else Depth(queues[..|queues| - 1]) + |queues[|queues| - 1]|
  }

  function Routes(fifo: seq<Envelope>, lanes: nat): seq<seq<Envelope>> {
    seq(lanes, s requires 0 <= s < lanes => Routed(fifo, s))
  }

  lemma {:induction false} DepthAfterHead(head: Envelope, tail: seq<Envelope>, lanes: nat)
    ensures Depth(Routes([head] + tail, lanes)) == Depth(Routes(tail, lanes)) + if head.shardId < lanes then 1 else 0
  {
    if lanes > 0 {
      DepthAfterHead(head, tail, lanes - 1);
      RoutedCons(head, tail, lanes - 1);
      assert Routes([head] + tail, lanes)[..lanes - 1] == Routes([head] + tail, lanes - 1);
      assert Routes(tail, lanes)[..lanes - 1] == Routes(tail, lanes - 1);
    }
  }

  lemma {:induction false} EmptyDepth(lanes: nat)
    ensures Depth(Routes([], lanes)) == 0
  {
    if lanes > 0 {
      EmptyDepth(lanes - 1);
      assert Routes([], lanes)[..lanes - 1] == Routes([], lanes - 1);
    }
  }

  /** No envelope is lost or duplicated: the depths add up to the length of the list. */
  lemma {:induction false} DepthIsLength(fifo: seq<Envelope>, lanes: nat)
    requires forall e | e in fifo :: e.shardId < lanes
    ensures Depth(Routes(fifo, lanes)) == |fifo|
  {
    if fifo == [] {
      EmptyDepth(lanes);
    } else {
      assert fifo == [fifo[0]] + fifo[1..];
      DepthAfterHead(fifo[0], fifo[1..], lanes);
      DepthIsLength(fifo[1..], lanes);
    }
  }

  lemma NumberedCons(head: Envelope, tail: seq<Envelope>, next: nat, max: nat)
    ensures Numbered([head] + tail, next, max)
       <==> && Numbered(tail, next, max)
            && (head.globalSeq < next || head.globalSeq == next == max)
            && forall e | e in tail :: Precedes(head, e, max)
  {
    hide Precedes;
    var all := [head] + tail;
    if Numbered(all, next, max) {
      assert all[0] == head;
      forall i, j | 0 <= i < j < |tail| ensures Precedes(tail[i], tail[j], max) {
        assert all[i + 1] == tail[i] && all[j + 1] == tail[j];
      }
      forall e | e in tail ensures Precedes(head, e, max) {
        var i :| 0 <= i < |tail| && tail[i] == e;
        assert all[i + 1] == e;
      }
    }
    if Numbered(tail, next, max) && forall e | e in tail :: Precedes(head, e, max) {
      forall i, j | 0 <= i < j < |all| ensures Precedes(all[i], all[j], max) {
        assert all[j] == tail[j - 1];
        assert i > 0 ==> all[i] == tail[i - 1];
      }
    }
  }

  lemma {:induction false} SkipKeepsOrder(fifo: seq<Envelope>, shard: nat, n: nat, next: nat, max: nat)
    requires Numbered(fifo, next, max)
    ensures Numbered(Skip(fifo, shard, n), next, max)
    ensures forall e | e in Skip(fifo, shard, n) :: e in fifo
  {
    if fifo != [] && n > 0 {
      var head, tail := fifo[0], fifo[1..];
      assert fifo == [head] + tail;
      hide Numbered, Precedes;
      NumberedCons(head, tail, next, max);
      SkipKeepsOrder(tail, shard, if head.shardId == shard then n - 1 else n, next, max);
      NumberedCons(head, Skip(tail, shard, n), next, max);
    }
  }

  // ---- The merge ----

  /** The lane the drain loop has chosen after looking at the first `n` lanes. */
  function Best(queues: seq<seq<Envelope>>, n: nat): (best: Option<nat>)
    requires n <= |queues|
    ensures best.Some? ==> best.value < n && queues[best.value] != []
  {
    if n == 0 then None
    else
      var best := Best(queues, n - 1);
      if queues[n - 1] == [] then best
      else if best.None? || queues[n - 1][0].globalSeq < queues[best.value][0].globalSeq then Some(n - 1)
      else best
  }

  /** The chosen lane's head has the least number, and no lower lane's head shares it. */
  lemma {:induction false} BestIsLeast(queues: seq<seq<Envelope>>, n: nat)
    requires n <= |queues|
    ensures Best(queues, n).None? ==> forall s | 0 <= s < n :: queues[s] == []
    ensures Best(queues, n).Some? ==>
              forall s | 0 <= s < n && queues[s] != [] ::
                && queues[Best(queues, n).value][0].globalSeq <= queues[s][0].globalSeq
                && (s < Best(queues, n).value ==>
                      queues[Best(queues, n).value][0].globalSeq < queues[s][0].globalSeq)
  {
    if n > 0 {
      BestIsLeast(queues, n - 1);
    }
  }

  /** The lowest shard of an envelope with this number. */
  function LowestWith(fifo: seq<Envelope>, number: nat): (shard: Option<nat>)
    ensures shard.None? ==> forall e | e in fifo :: e.globalSeq != number
    ensures shard.Some? ==>
              && (exists e :: e in fifo && e.globalSeq == number && e.shardId == shard.value)
              && (forall e | e in fifo && e.globalSeq == number :: shard.value <= e.shardId)
  {
    if fifo == [] then None
    else
      var rest := LowestWith(fifo[1..], number);
      if fifo[0].globalSeq != number || (rest.Some? && rest.value < fifo[0].shardId) then rest
      else Some(fifo[0].shardId)
  }

  /** The shard the merge takes an envelope from. */
  function Chosen(fifo: seq<Envelope>): (shard: nat)
    requires fifo != []
    ensures Routed(fifo, shard) != []
  {
    var lowest := LowestWith(fifo, fifo[0].globalSeq);
    RoutedMembers(fifo, lowest.value);
    lowest.value
  }

  /** It is the oldest envelope's exactly when no envelope with the same number is for a lower
      shard. */
  lemma ChosenIsOldestIff(fifo: seq<Envelope>)
    requires fifo != []
    ensures Chosen(fifo) == fifo[0].shardId
       <==> forall e | e in fifo && e.globalSeq == fifo[0].globalSeq :: fifo[0].shardId <= e.shardId
  {
    assert fifo[0] in fifo;
  }

  /** A lane's head is its first envelope in the list. */
  lemma {:induction false} RoutedHead(fifo: seq<Envelope>, shard: nat)
    requires Routed(fifo, shard) != []
    ensures exists i :: 0 <= i < |fifo| && fifo[i] == Routed(fifo, shard)[0] && fifo[i].shardId == shard
                        && forall j | 0 <= j < i :: fifo[j].shardId != shard
  {
    if fifo[0].shardId != shard {
      RoutedHead(fifo[1..], shard);
      var i :| 0 <= i < |fifo[1..]| && fifo[1..][i] == Routed(fifo[1..], shard)[0] && fifo[1..][i].shardId == shard
               && forall j | 0 <= j < i :: fifo[1..][j].shardId != shard;
      assert forall j | 0 < j < i + 1 :: fifo[j] == fifo[1..][j - 1];
      assert fifo[i + 1] == Routed(fifo, shard)[0];
    }
  }

  lemma HeadNumber(fifo: seq<Envelope>, next: nat, max: nat, e: Envelope)
    requires Numbered(fifo, next, max) && e in fifo && e.globalSeq == fifo[0].globalSeq
    ensures Routed(fifo, e.shardId) != [] && Routed(fifo, e.shardId)[0].globalSeq == e.globalSeq
  {
    RoutedMembers(fifo, e.shardId);
    RoutedHead(fifo, e.shardId);
    hide Routed;
    var i :| 0 <= i < |fifo| && fifo[i] == Routed(fifo, e.shardId)[0]
             && forall j | 0 <= j < i :: fifo[j].shardId != e.shardId;
    var k :| 0 <= k < |fifo| && fifo[k] == e;
    assert i <= k;
  }

  /** The lane the merge takes from, in terms of the list alone. */
  lemma BestIsChosen(fifo: seq<Envelope>, queues: seq<seq<Envelope>>, next: nat, max: nat)
    requires Refines(fifo, queues, next, max)
    ensures Best(queues, |queues|) == if fifo == [] then None else Some(Chosen(fifo))
    ensures fifo != [] ==> Chosen(fifo) < |queues| && queues[Chosen(fifo)] == Routed(fifo, Chosen(fifo))
  {
    hide Routed, Best, LowestWith, Chosen, Precedes;
    BestIsLeast(queues, |queues|);
    var best := Best(queues, |queues|);
    if fifo == [] {
      LanesAreRouted(fifo, queues, next, max);
    } else {
      var shard := Chosen(fifo);
      ChosenMeans(fifo);
      LanesAreRouted(fifo, queues, next, max);
      OldestHead(fifo, queues, next, max);
      var head := queues[best.value][0];
      assert head.globalSeq == fifo[0].globalSeq;
    }
  }

  /** A lane's head is in the list, no older than its first, and routed to that lane. */
  lemma LanesAreRouted(fifo: seq<Envelope>, queues: seq<seq<Envelope>>, next: nat, max: nat)
    requires Refines(fifo, queues, next, max)
    ensures fifo == [] ==> forall s | 0 <= s < |queues| :: queues[s] == []
    ensures fifo != [] ==> forall s | 0 <= s < |queues| && queues[s] != [] ::
              && queues[s][0] in fifo && queues[s][0].shardId == s
              && fifo[0].globalSeq <= queues[s][0].globalSeq
  {
    forall s | 0 <= s < |queues| && queues[s] != []
      ensures queues[s][0] in fifo && queues[s][0].shardId == s && fifo[0].globalSeq <= queues[s][0].globalSeq
    {
      RoutedMembers(fifo, s);
      assert queues[s][0] in Routed(fifo, s);
      hide Routed;
      var i :| 0 <= i < |fifo| && fifo[i] == queues[s][0];
      assert i > 0 ==> Precedes(fifo[0], fifo[i], max);
    }
  }

  lemma ChosenMeans(fifo: seq<Envelope>)
    requires fifo != []
    ensures exists e :: e in fifo && e.globalSeq == fifo[0].globalSeq && e.shardId == Chosen(fifo)
    ensures forall e | e in fifo && e.globalSeq == fifo[0].globalSeq :: Chosen(fifo) <= e.shardId
  {
    hide Routed, LowestWith;
    assert fifo[0] in fifo;
  }

  lemma OldestHead(fifo: seq<Envelope>, queues: seq<seq<Envelope>>, next: nat, max: nat)
    requires Refines(fifo, queues, next, max) && fifo != []
    ensures Chosen(fifo) < |queues| && queues[Chosen(fifo)] == Routed(fifo, Chosen(fifo)) != []
    ensures queues[Chosen(fifo)][0].globalSeq == fifo[0].globalSeq
  {
    hide Routed, Chosen, Precedes;
    ChosenMeans(fifo);
    var e :| e in fifo && e.globalSeq == fifo[0].globalSeq && e.shardId == Chosen(fifo);
    HeadNumber(fifo, next, max, e);
  }

  /** What the merge returns from a list, and what it leaves. */
  function Merged(fifo: seq<Envelope>, n: nat): seq<Envelope>
    decreases n
  {
    if n == 0 || fifo == [] then []
    else [Routed(fifo, Chosen(fifo))[0]] + Merged(Skip(fifo, Chosen(fifo), 1), n - 1)
  }

  function Unmerged(fifo: seq<Envelope>, n: nat): seq<Envelope>
    decreases n
  {
    if n == 0 || fifo == [] then fifo
    else Unmerged(Skip(fifo, Chosen(fifo), 1), n - 1)
  }

  /** The merge loses, doubles and reorders nothing within a shard, saturated or not. */
  lemma {:induction false} MergedKeepsRoutes(fifo: seq<Envelope>, n: nat, shard: nat)
    ensures Routed(Merged(fifo, n), shard) + Routed(Unmerged(fifo, n), shard) == Routed(fifo, shard)
    decreases n
  {
    hide *;
    if n == 0 || fifo == [] {
      MergeNothing(fifo, n);
    } else {
      var from := Chosen(fifo);
      MergeUnfold(fifo, n);
      SkipRoutes(fifo, from, 1, shard);
      RoutedShard(fifo, from);
      var rest, head := Skip(fifo, from, 1), Routed(fifo, from)[0];
      MergedKeepsRoutes(rest, n - 1, shard);
      RoutedCons(head, Merged(rest, n - 1), shard);
      if from == shard {
        Rejoin(head, Routed(Merged(rest, n - 1), shard), Routed(Unmerged(rest, n - 1), shard), Routed(fifo, shard));
      }
    }
  }

  lemma RoutedShard(fifo: seq<Envelope>, shard: nat)
    requires Routed(fifo, shard) != []
    ensures Routed(fifo, shard)[0].shardId == shard
  {
    RoutedMembers(fifo, shard);
    assert Routed(fifo, shard)[0] in Routed(fifo, shard);
  }

  lemma MergeNothing(fifo: seq<Envelope>, n: nat)
    requires n == 0 || fifo == []
    ensures Merged(fifo, n) == [] && Unmerged(fifo, n) == fifo
    ensures InOrder(fifo, n)
    ensures forall shard: nat :: Routed([], shard) == []
  {
  }

  lemma Rejoin<T>(head: T, a: seq<T>, b: seq<T>, all: seq<T>)
    requires all != [] && all[0] == head && a + b == all[1..]
    ensures [head] + a + b == all
  {
    assert [head] + a + b == [head] + (a + b);
  }

  /** Among the first `n` envelopes none shares its number with a later one for a lower shard. */
  ghost predicate InOrder(fifo: seq<Envelope>, n: nat) {
    forall i, j | 0 <= i < n && i < j < |fifo| && fifo[i].globalSeq == fifo[j].globalSeq ::
      fifo[i].shardId <= fifo[j].shardId
  }

  /** The merge follows the order of acceptance exactly when shared numbers do not stand in
      its way. */
  lemma {:induction false} MergedIsFifoIff(fifo: seq<Envelope>, n: nat)
    requires n <= |fifo|
    ensures Merged(fifo, n) == fifo[..n] <==> InOrder(fifo, n)
    ensures InOrder(fifo, n) ==> Unmerged(fifo, n) == fifo[n..]
  {
    hide *;
    if n > 0 {
      ChosenIsOldestIff(fifo);
      InOrderCons(fifo, n);
      MergeOne(fifo, n);
      if Chosen(fifo) == fifo[0].shardId {
        MergedIsFifoIff(fifo[1..], n - 1);
      }
    } else {
      MergeNothing(fifo, n);
      assert fifo[..0] == [] && fifo[0..] == fifo;
    }
  }

  lemma MergeOne(fifo: seq<Envelope>, n: nat)
    requires 0 < n <= |fifo|
    ensures Chosen(fifo) == fifo[0].shardId ==>
              && (Merged(fifo, n) == fifo[..n] <==> Merged(fifo[1..], n - 1) == fifo[1..][..n - 1])
              && Unmerged(fifo, n) == Unmerged(fifo[1..], n - 1)
              && fifo[n..] == fifo[1..][n - 1..]
    ensures Chosen(fifo) != fifo[0].shardId ==> Merged(fifo, n) != fifo[..n]
  {
    hide *;
    var shard, head, tail := Chosen(fifo), fifo[0], fifo[1..];
    MergeUnfold(fifo, n);
    RoutedShard(fifo, shard);
    if shard == head.shardId {
      SkipHead(fifo);
      assert fifo[..n] == [head] + tail[..n - 1];
      ConsEqual(head, Merged(tail, n - 1), tail[..n - 1]);
    } else {
      assert Merged(fifo, n)[0].shardId == shard;
    }
  }

  lemma ConsEqual<T>(head: T, a: seq<T>, b: seq<T>)
    ensures [head] + a == [head] + b <==> a == b
  {
    assert ([head] + a)[1..] == a && ([head] + b)[1..] == b;
  }

  lemma InOrderCons(fifo: seq<Envelope>, n: nat)
    requires 0 < n <= |fifo|
    ensures InOrder(fifo, n)
       <==> InOrder(fifo[1..], n - 1)
            && forall e | e in fifo && e.globalSeq == fifo[0].globalSeq :: fifo[0].shardId <= e.shardId
  {
    var tail := fifo[1..];
    assert forall i | 0 < i < |fifo| :: fifo[i] == tail[i - 1];
    if InOrder(fifo, n) {
      forall e | e in fifo && e.globalSeq == fifo[0].globalSeq ensures fifo[0].shardId <= e.shardId {
        var j :| 0 <= j < |fifo| && fifo[j] == e;
      }
      forall i, j | 0 <= i < n - 1 && i < j < |tail| && tail[i].globalSeq == tail[j].globalSeq
        ensures tail[i].shardId <= tail[j].shardId
      {
        assert fifo[i + 1] == tail[i] && fifo[j + 1] == tail[j];
      }
    }
    if InOrder(tail, n - 1) && forall e | e in fifo && e.globalSeq == fifo[0].globalSeq :: fifo[0].shardId <= e.shardId {
      forall i, j | 0 <= i < n && i < j < |fifo| && fifo[i].globalSeq == fifo[j].globalSeq
        ensures fifo[i].shardId <= fifo[j].shardId
      {
        assert fifo[j] in fifo;
        assert i > 0 ==> tail[i - 1] == fifo[i];
        assert tail[j - 1] == fifo[j];
      }
    }
  }

  /** While at most the newest envelope carries the greatest number, they never do. */
  lemma UniqueIsInOrder(fifo: seq<Envelope>, n: nat, next: nat, max: nat)
    requires Numbered(fifo, next, max)
    requires next < max || forall i | 0 <= i < |fifo| - 1 :: fifo[i].globalSeq < max
    ensures InOrder(fifo, n)
  {
    forall i, j | 0 <= i < j < |fifo|
      ensures fifo[i].globalSeq < fifo[j].globalSeq
    {
      assert fifo[j] in fifo;
    }
  }

  lemma AppendRefines(fifo: seq<Envelope>, queues: seq<seq<Envelope>>, next: nat, max: nat, e: Envelope)
    requires Refines(fifo, queues, next, max) && e.globalSeq == next <= max && e.shardId < |queues|
    ensures Refines(fifo + [e], queues[e.shardId := queues[e.shardId] + [e]], if next < max then next + 1 else max, max)
  {
    forall s | 0 <= s < |queues| ensures queues[e.shardId := queues[e.shardId] + [e]][s] == Routed(fifo + [e], s) {
      RoutedAppend(fifo, e, s);
    }
  }

  /** A refused push still uses up a number. */
  lemma RefusalRefines(fifo: seq<Envelope>, queues: seq<seq<Envelope>>, next: nat, max: nat)
    requires Refines(fifo, queues, next, max)
    ensures Refines(fifo, queues, if next < max then next + 1 else next, max)
  {
  }

  lemma SkipRefines(fifo: seq<Envelope>, queues: seq<seq<Envelope>>, next: nat, max: nat, shard: nat, n: nat)
    requires Refines(fifo, queues, next, max) && shard < |queues| && n <= |queues[shard]|
    ensures Refines(Skip(fifo, shard, n), queues[shard := queues[shard][n..]], next, max)
  {
    SkipKeepsOrder(fifo, shard, n, next, max);
    forall s | 0 <= s < |queues|
      ensures queues[shard := queues[shard][n..]][s] == Routed(Skip(fifo, shard, n), s)
    {
      SkipRoutes(fifo, shard, n, s);
    }
  }

  function Pushed(queues: seq<seq<Envelope>>, e: Envelope): seq<seq<Envelope>> {
    if e.shardId < |queues| then queues[e.shardId := queues[e.shardId] + [e]] else queues
  }

  // ---- The implementation ----

  class SpscLane {
    const capacity: nat
    var queue: seq<Envelope>
    var maxDepth: nat

    constructor (capacity: nat)
      ensures this.capacity == capacity && queue == [] && maxDepth == 0
    {
      this.capacity := capacity;
      queue := [];
      maxDepth := 0;
    }

    method Push(value: Envelope) returns (r: Result<(), nat>)
      modifies this
      ensures r == if |old(queue)| >= capacity then Err(|old(queue)|) else Ok(())
      ensures queue == if r.Ok? then old(queue) + [value] else old(queue)
      ensures maxDepth == if r.Ok? && |queue| > old(maxDepth) then |queue| else old(maxDepth)
    {
      if |queue| >= capacity {
        return Err(|queue|);
      }
      queue := queue + [value];
      maxDepth := if |queue| > maxDepth then |queue| else maxDepth;
      r := Ok(());
    }

    method Pop() returns (item: Option<Envelope>)
      modifies this`queue
      ensures item == if old(queue) == [] then None else Some(old(queue)[0])
      ensures queue == if old(queue) == [] then [] else old(queue)[1..]
    {
      if queue == [] {
        return None;
      }
      item := Some(queue[0]);
      queue := queue[1..];
    }
  }

  class ReactorMesh {
    const maxCount: nat   // u64::MAX
    const maxCursor: nat  // usize::MAX
    const stableHash: string -> nat
    var sequence: nat
    var lanes: seq<SpscLane>
    var shardSeq: seq<nat>
    var rrCursor: nat
    var rejectedEnqueues: nat
    /** The accepted envelopes not yet drained, in order of acceptance. */
    ghost var fifo: seq<Envelope>

    ghost function Queues(): seq<seq<Envelope>>
      reads `lanes, lanes
    {
      var ls := lanes;
      seq(|ls|, s requires 0 <= s < |ls| reads ls => ls[s].queue)
    }

    /** Lanes are separate and bounded. */
    ghost predicate Bounded()
      reads `lanes, lanes
    {
      && (forall i, j | 0 <= i < j < |lanes| :: lanes[i] != lanes[j])
      && (forall i | 0 <= i < |lanes| :: |lanes[i].queue| <= lanes[i].capacity)
    }

    /** The lanes are together the one list. */
    ghost predicate Valid()
      reads `lanes, `shardSeq, `sequence, `fifo, lanes
    {
      && Bounded() && |shardSeq| == |lanes| && sequence <= maxCount
      && Refines(fifo, Queues(), sequence, maxCount)
    }

    constructor (shardCount: nat, laneCapacity: nat, stableHash: string -> nat, maxCount: nat, maxCursor: nat)
      ensures Valid() && fifo == [] && fresh(lanes)
      ensures |lanes| == if laneCapacity == 0 then 0 else shardCount
      ensures forall i | 0 <= i < |lanes| :: lanes[i].capacity == laneCapacity
      ensures sequence == rrCursor == rejectedEnqueues == 0
      ensures |shardSeq| == |lanes| && forall i | 0 <= i < |shardSeq| :: shardSeq[i] == 0
      ensures this.stableHash == stableHash && this.maxCount == maxCount && this.maxCursor == maxCursor
    {
      this.stableHash, this.maxCount, this.maxCursor := stableHash, maxCount, maxCursor;
      sequence, rrCursor, rejectedEnqueues := 0, 0, 0;
      lanes, shardSeq, fifo := [], [], [];
      new;
      if laneCapacity != 0 {
        for i := 0 to shardCount
          invariant |lanes| == |shardSeq| == i && fresh(lanes) && fifo == []
          invariant sequence == rrCursor == rejectedEnqueues == 0 && forall a | 0 <= a < i :: shardSeq[a] == 0
          invariant forall a, b | 0 <= a < b < i :: lanes[a] != lanes[b]
          invariant forall a | 0 <= a < i :: lanes[a].capacity == laneCapacity && lanes[a].queue == []
        {
          var lane := new SpscLane(laneCapacity);
          lanes := lanes + [lane];
          shardSeq := shardSeq + [0];
        }
      }
    }

    method NextShardSeq(shard: nat) returns (current: nat)
      modifies this`shardSeq
      ensures |shardSeq| == |old(shardSeq)|
      ensures current == if shard < |shardSeq| then old(shardSeq)[shard] else 0
      ensures shardSeq == if shard < |shardSeq| then old(shardSeq)[shard := Saturating(current, maxCount)] else old(shardSeq)
    {
      if shard >= |shardSeq| {
        return 0;
      }
      current := shardSeq[shard];
      shardSeq := shardSeq[shard := Saturating(current, maxCount)];
    }

    /** A push uses up a global and a shard number, whether or not it is accepted. */
    method EnqueueWithRoute(shard: nat, task: Task) returns (r: Result<Envelope, Backpressure>)
      requires Valid()
      modifies this, lanes
      ensures Valid() && lanes == old(lanes) && rrCursor == old(rrCursor)
      ensures NumbersUsed(shard, old(sequence), old(shardSeq))
      ensures r == if shard < |lanes| && |old(lanes[shard].queue)| < lanes[shard].capacity
                   then Ok(Envelope(old(sequence), old(shardSeq)[shard], shard, task))
                   else Err(Refusal(shard))
      ensures rejectedEnqueues == if r.Ok? then old(rejectedEnqueues) else Saturating(old(rejectedEnqueues), maxCount)
      ensures fifo == if r.Ok? then old(fifo) + [r.value] else old(fifo)
      ensures Queues() == if r.Ok? then Pushed(old(Queues()), r.value) else old(Queues())
    {
      hide Refines, Bounded, Queues;
      ghost var before := Queues();
      QueueAt(shard);
      var globalSeq := sequence;
      sequence := Saturating(sequence, maxCount);
      var shardSeqNow := NextShardSeq(shard);
      var envelope := Envelope(globalSeq, shardSeqNow, shard, task);
      RefusalRefines(fifo, before, globalSeq, maxCount);
      if shard >= |lanes| {
        rejectedEnqueues := Saturating(rejectedEnqueues, maxCount);
        return Err(Backpressure(shard, 0, 0));
      }
      var pushed := PushLane(shard, envelope);
      QueueAt(shard);
      match pushed {
        case Ok(_) =>
          AppendRefines(fifo, before, globalSeq, maxCount, envelope);
          fifo := fifo + [envelope];
          assert Refines(fifo, Queues(), sequence, maxCount);
          r := Ok(envelope);
        case Err(depth) =>
          rejectedEnqueues := Saturating(rejectedEnqueues, maxCount);
          r := Err(Backpressure(shard, depth, lanes[shard].capacity));
      }
    }

    /** Pushes to one lane, if it has room. */
    method PushLane(shard: nat, envelope: Envelope) returns (pushed: Result<(), nat>)
      requires Bounded() && shard < |lanes|
      modifies lanes
      ensures Bounded()
      ensures var q := old(Queues())[shard];
              && pushed == (if |q| >= lanes[shard].capacity then Err(|q|) else Ok(()))
              && Queues() == if pushed.Ok? then old(Queues())[shard := q + [envelope]] else old(Queues())
    {
      pushed := lanes[shard].Push(envelope);
    }

    /** A push takes the next global number and the next number of its shard. */
    predicate NumbersUsed(shard: nat, sequenceBefore: nat, shardSeqBefore: seq<nat>)
      reads `sequence, `shardSeq
    {
      && sequence == Saturating(sequenceBefore, maxCount)
      && shardSeq == if shard < |shardSeqBefore|
                     then shardSeqBefore[shard := Saturating(shardSeqBefore[shard], maxCount)] else shardSeqBefore
    }

    /** What a refused push reports. */
    function Refusal(shard: nat): Backpressure
      reads `lanes, lanes
    {
      if shard < |lanes| then Backpressure(shard, |lanes[shard].queue|, lanes[shard].capacity)
      else Backpressure(shard, 0, 0)
    }

    function HashRoute(callId: string): nat
      reads `lanes
    {
      if |lanes| <= 1 then 0 else stableHash(callId) % |lanes|
    }

    /** The lane whose turn it is. */
    function Turn(): nat
      reads `lanes, `rrCursor
    {
      if |lanes| <= 1 then 0 else rrCursor % |lanes|
    }

    /** Every call has a lane, and every lane is some hash's. */
    lemma CallsHaveLanes(callId: string)
      ensures |lanes| > 0 ==> HashRoute(callId) < |lanes|
      ensures |lanes| > 1 ==> HashRoute(callId) == stableHash(callId) % |lanes|
      ensures stableHash(callId) < |lanes| ==> HashRoute(callId) == stableHash(callId)
    {
      if |lanes| > 1 {
        Remainders(stableHash(callId), |lanes|);
      }
    }

    /** An event has a lane, and until the cursor wraps each lane has its turn among as many
        events as there are lanes. */
    lemma LanesTakeTurns(lane: nat) returns (k: nat)
      requires lane < |lanes|
      ensures Turn() < |lanes|
      ensures k < |lanes| && (rrCursor + k) % |lanes| == lane
    {
      var r := rrCursor % |lanes|;
      k := if lane >= r then lane - r else lane + |lanes| - r;
      TurnAfter(rrCursor, k, |lanes|, lane);
    }

    method RrRoute() returns (shard: nat)
      modifies this`rrCursor
      ensures shard == old(Turn())
      ensures rrCursor == if |lanes| <= 1 then old(rrCursor) else (old(rrCursor) + 1) % (maxCursor + 1)
    {
      if |lanes| <= 1 {
        return 0;
      }
      shard := rrCursor % |lanes|;
      rrCursor := (rrCursor + 1) % (maxCursor + 1);
    }

    method EnqueueHostcallComplete(callId: string) returns (r: Result<Envelope, Backpressure>)
      requires Valid()
      modifies this, lanes
      ensures Valid() && lanes == old(lanes) && rrCursor == old(rrCursor)
      ensures var shard := HashRoute(callId);
              r == if shard < |lanes| && |old(lanes[shard].queue)| < lanes[shard].capacity
                   then Ok(Envelope(old(sequence), old(shardSeq)[shard], shard, HostcallComplete(callId)))
                   else Err(Refusal(shard))
      ensures NumbersUsed(HashRoute(callId), old(sequence), old(shardSeq))
      ensures rejectedEnqueues == if r.Ok? then old(rejectedEnqueues) else Saturating(old(rejectedEnqueues), maxCount)
      ensures Queues() == if r.Ok? then Pushed(old(Queues()), r.value) else old(Queues())
      ensures fifo == if r.Ok? then old(fifo) + [r.value] else old(fifo)
    {
      hide Refines, Bounded, Queues, HashRoute;
      var shard := HashRoute(callId);
      r := EnqueueWithRoute(shard, HostcallComplete(callId));
    }

    method EnqueueEvent(eventId: string) returns (r: Result<Envelope, Backpressure>)
      requires Valid()
      modifies this, lanes
      ensures Valid() && lanes == old(lanes)
      ensures rrCursor == if |lanes| <= 1 then old(rrCursor) else (old(rrCursor) + 1) % (maxCursor + 1)
      ensures var shard := old(Turn());
              r == if shard < |lanes| && |old(lanes[shard].queue)| < lanes[shard].capacity
                   then Ok(Envelope(old(sequence), old(shardSeq)[shard], shard, InboundEvent(eventId)))
                   else Err(Refusal(shard))
      ensures NumbersUsed(old(Turn()), old(sequence), old(shardSeq))
      ensures rejectedEnqueues == if r.Ok? then old(rejectedEnqueues) else Saturating(old(rejectedEnqueues), maxCount)
      ensures Queues() == if r.Ok? then Pushed(old(Queues()), r.value) else old(Queues())
      ensures fifo == if r.Ok? then old(fifo) + [r.value] else old(fifo)
    {
      hide Refines, Bounded, Queues, Turn;
      var shard := RrRoute();
      r := EnqueueWithRoute(shard, InboundEvent(eventId));
    }

    method TotalDepth() returns (depth: nat)
      requires Valid()
      ensures depth == |fifo|
    {
      depth := 0;
      ghost var queues := Queues();
      for i := 0 to |lanes|
        invariant depth == Depth(queues[..i])
      {
        assert queues[..i + 1][..i] == queues[..i];
        depth := depth + |lanes[i].queue|;
      }
      assert queues[..|lanes|] == queues;
      DepthIsLength(fifo, |lanes|);
      assert queues == Routes(fifo, |lanes|);
    }

    /** Pops the head of one lane, if any. */
    method PopLane(shard: nat) returns (item: Option<Envelope>)
      requires Bounded() && shard < |lanes|
      modifies lanes
      ensures Bounded()
      ensures var q := old(Queues())[shard];
              && item == (if q == [] then None else Some(q[0]))
              && Queues() == if q == [] then old(Queues()) else old(Queues())[shard := q[1..]]
    {
      item := lanes[shard].Pop();
    }

    /** Returns and removes the first `budget` accepted envelopes of one shard. */
    method DrainShard(shard: nat, budget: nat) returns (drained: seq<Envelope>)
      requires Valid()
      modifies this`fifo, lanes
      ensures Valid()
      ensures shard >= |lanes| ==> drained == [] && fifo == old(fifo)
      ensures shard < |lanes| ==>
                var all := Routed(old(fifo), shard);
                var n := if budget < |all| then budget else |all|;
                drained == all[..n] && fifo == Skip(old(fifo), shard, n)
    {
      hide Refines, Skip, Routed, Queues, Bounded;
      drained := [];
      if shard >= |lanes| {
        return;
      }
      ghost var queues := Queues();
      QueueCount();
      ghost var held := queues[shard];
      LaneIsRoute(fifo, queues, sequence, maxCount, shard);
      for i := 0 to budget
        invariant Bounded() && fifo == old(fifo)
        invariant |drained| == i <= |held| && drained == held[..i]
        invariant Queues() == queues[shard := held[i..]]
      {
        var item := PopLane(shard);
        if item.None? {
          break;
        }
        drained := drained + [item.value];
        assert held[i..][1..] == held[i + 1..];
      }
      SkipRefines(fifo, queues, sequence, maxCount, shard, |drained|);
      fifo := Skip(fifo, shard, |drained|);
    }

    lemma QueueCount()
      ensures |Queues()| == |lanes|
    {
    }

    lemma QueueAt(shard: nat)
      ensures |Queues()| == |lanes|
      ensures shard < |lanes| ==> Queues()[shard] == lanes[shard].queue
    {
    }

    /** Returns and removes what the merge takes from the list: the first `budget` accepted
        envelopes, whatever their shards, exactly when shared numbers do not matter. */
    method DrainGlobalOrder(budget: nat) returns (drained: seq<Envelope>)
      requires Valid()
      modifies this`fifo, lanes
      ensures Valid()
      ensures drained == Merged(old(fifo), budget) && fifo == Unmerged(old(fifo), budget)
      ensures var n := if budget < |old(fifo)| then budget else |old(fifo)|;
              && (drained == old(fifo)[..n] <==> InOrder(old(fifo), n))
              && (InOrder(old(fifo), n) ==> fifo == old(fifo)[n..])
    {
      hide Refines, Best, Queues, Bounded, Skip, InOrder, Merged, Unmerged, Routed, Chosen;
      drained := [];
      for i := 0 to budget
        invariant Valid()
        invariant drained + Merged(fifo, budget - i) == Merged(old(fifo), budget)
        invariant Unmerged(fifo, budget - i) == Unmerged(old(fifo), budget)
      {
        ghost var queues := Queues();
        QueueCount();
        BestIsChosen(fifo, queues, sequence, maxCount);
        MergeUnfold(fifo, budget - i);
        var best := ChooseLane();
        if best.None? {
          break;
        }
        var item := PopLane(best.value);
        if item.Some? {
          Regroup(drained, item.value, Merged(Skip(fifo, best.value, 1), budget - i - 1));
          drained := drained + [item.value];
        }
        SkipRefines(fifo, queues, sequence, maxCount, best.value, 1);
        fifo := Skip(fifo, best.value, 1);
      }
      MergeNothing(fifo, 0);
      MergedPrefixIff(old(fifo), budget);
    }

    /** The inner loop of the merge: the lane whose head has the least number. */
    method ChooseLane() returns (best: Option<nat>)
      ensures best == Best(Queues(), |lanes|)
      ensures best.Some? ==> best.value < |lanes| && Queues()[best.value] != []
    {
      best := None;
      ghost var queues := Queues();
      for idx := 0 to |lanes|
        invariant best == Best(queues, idx)
      {
        assert queues[idx] == lanes[idx].queue;
        if lanes[idx].queue != [] {
          assert best.Some? ==> queues[best.value] == lanes[best.value].queue;
          if best.None? || lanes[idx].queue[0].globalSeq < lanes[best.value].queue[0].globalSeq {
            best := Some(idx);
          }
        }
      }
    }
  }

  lemma LaneIsRoute(fifo: seq<Envelope>, queues: seq<seq<Envelope>>, next: nat, max: nat, shard: nat)
    requires Refines(fifo, queues, next, max) && shard < |queues|
    ensures queues[shard] == Routed(fifo, shard)
  {
  }

  lemma SkipHead(fifo: seq<Envelope>)
    requires fifo != []
    ensures Routed(fifo, fifo[0].shardId) != []
    ensures Skip(fifo, fifo[0].shardId, 1) == fifo[1..]
    ensures Routed(fifo, fifo[0].shardId)[0] == fifo[0]
  {
  }

  lemma {:induction false} SkipLength(fifo: seq<Envelope>, shard: nat)
    requires Routed(fifo, shard) != []
    ensures |Skip(fifo, shard, 1)| == |fifo| - 1
  {
    if fifo[0].shardId == shard {
      SkipHead(fifo);
    } else {
      SkipLength(fifo[1..], shard);
    }
  }

  lemma MergeUnfold(fifo: seq<Envelope>, n: nat)
    requires n > 0
    ensures fifo == [] ==> Merged(fifo, n) == [] && Unmerged(fifo, n) == []
    ensures fifo != [] ==>
              && Merged(fifo, n) == [Routed(fifo, Chosen(fifo))[0]] + Merged(Skip(fifo, Chosen(fifo), 1), n - 1)
              && Unmerged(fifo, n) == Unmerged(Skip(fifo, Chosen(fifo), 1), n - 1)
  {
  }

  lemma Regroup<T>(a: seq<T>, x: T, b: seq<T>)
    ensures a + ([x] + b) == a + [x] + b
  {
  }

  lemma MergedPrefixIff(fifo: seq<Envelope>, budget: nat)
    ensures var n := if budget < |fifo| then budget else |fifo|;
            && (Merged(fifo, budget) == fifo[..n] <==> InOrder(fifo, n))
            && (InOrder(fifo, n) ==> Unmerged(fifo, budget) == fifo[n..])
  {
    MergedLength(fifo, budget);
    MergedIsFifoIff(fifo, if budget < |fifo| then budget else |fifo|);
    hide *;
  }

  /** A budget beyond the length of the list takes all of it. */
  lemma {:induction false} MergedLength(fifo: seq<Envelope>, n: nat)
    ensures var m := if n < |fifo| then n else |fifo|;
            Merged(fifo, n) == Merged(fifo, m) && Unmerged(fifo, n) == Unmerged(fifo, m)
    decreases n
  {
    hide *;
    if n > 0 && fifo != [] {
      var rest := Skip(fifo, Chosen(fifo), 1);
      SkipLength(fifo, Chosen(fifo));
      MergedLength(rest, n - 1);
      MergeUnfold(fifo, n);
      MergeUnfold(fifo, if n < |fifo| then n else |fifo|);
    } else {
      MergeNothing(fifo, n);
      MergeNothing(fifo, 0);
    }
  }

  lemma NewerFirst(older: Envelope, newer: Envelope)
    requires older.globalSeq == newer.globalSeq && newer.shardId < older.shardId
    ensures Merged([older, newer], 2) == [newer, older]
  {
    var fifo := [older, newer];
    assert older in fifo && newer in fifo;
    assert LowestWith(fifo, older.globalSeq) == Some(newer.shardId);
    assert fifo[1..] == [newer] && [newer][1..] == [] && [older][1..] == [];
    assert Routed([newer], newer.shardId) == [newer];
    assert Skip([newer], newer.shardId, 1) == [];
    assert Routed(fifo, newer.shardId) == [newer];
    assert Skip(fifo, newer.shardId, 1) == [older];
    assert LowestWith([older], older.globalSeq) == Some(older.shardId);
    assert Routed([older], older.shardId) == [older];
    MergeUnfold(fifo, 2);
    MergeUnfold([older], 1);
  }

  lemma Remainders(x: nat, n: nat)
    requires n > 0
    ensures x % n < n && (x < n ==> x % n == x)
  {
  }

  lemma TurnAfter(cursor: nat, k: nat, lanes: nat, lane: nat)
    requires lane < lanes && k < lanes
    requires k == if lane >= cursor % lanes then lane - cursor % lanes else lane + lanes - cursor % lanes
    ensures (cursor + k) % lanes == lane
  {
    var q, r := cursor / lanes, cursor % lanes;
    assert cursor == lanes * q + r;
    if lane >= r {
      DivModUnique(cursor + k, lanes, q, lane);
    } else {
      assert lanes * (q + 1) == lanes * q + lanes;
      DivModUnique(cursor + k, lanes, q + 1, lane);
    }
  }

  /** The wrapping cursor of two lanes alternates between them. */
  lemma CursorAlternates(cursor: nat, max: nat)
    requires cursor <= max && max % 2 == 1
    ensures (cursor + 1) % (max + 1) <= max && (cursor + 1) % (max + 1) % 2 != cursor % 2
  {
    Wraps(cursor + 1, max + 1);
  }

  lemma Wraps(x: nat, n: nat)
    requires 0 < x <= n
    ensures x % n == if x < n then x else 0
  {
  }

  /** Events come and are drained one by one until the counter is at its maximum and the
      upper one of two lanes is next. */
  method Saturate(stableHash: string -> nat, maxCount: nat, maxCursor: nat, eventId: string)
    returns (mesh: ReactorMesh)
    requires maxCursor % 2 == 1
    ensures mesh.Valid() && mesh.fifo == [] && mesh.sequence == mesh.maxCount == maxCount
    ensures |mesh.lanes| == 2 && fresh(mesh) && fresh(mesh.lanes)
    ensures mesh.rrCursor % 2 == 1 && mesh.rrCursor <= mesh.maxCursor == maxCursor
    ensures forall i | 0 <= i < 2 :: mesh.lanes[i].capacity == 1 && mesh.lanes[i].queue == []
  {
    hide Refines, Merged, Unmerged, ReactorMesh.Bounded, ReactorMesh.Queues;
    mesh := new ReactorMesh(2, 1, stableHash, maxCount, maxCursor);
    while mesh.sequence < maxCount || mesh.rrCursor % 2 == 0
      invariant mesh.Valid() && mesh.fifo == [] && mesh.maxCount == maxCount
      invariant mesh.rrCursor <= mesh.maxCursor == maxCursor
      invariant |mesh.lanes| == 2 && fresh(mesh) && fresh(mesh.lanes)
      invariant forall i | 0 <= i < 2 :: mesh.lanes[i].capacity == 1
      decreases maxCount - mesh.sequence, 1 - mesh.rrCursor % 2
    {
      CursorAlternates(mesh.rrCursor, maxCursor);
      var accepted := mesh.EnqueueEvent(eventId);
      var drained := mesh.DrainGlobalOrder(1);
    }
    mesh.QueueAt(0);
    mesh.QueueAt(1);
    LaneIsRoute([], mesh.Queues(), mesh.sequence, maxCount, 0);
    LaneIsRoute([], mesh.Queues(), mesh.sequence, maxCount, 1);
  }

  /** With the counter stuck at its maximum, an event for the lower lane overtakes an older
      one. */
  method SaturationReorders(stableHash: string -> nat, maxCount: nat, maxCursor: nat, first: string, second: string)
    returns (older: Result<Envelope, Backpressure>, newer: Result<Envelope, Backpressure>, drained: seq<Envelope>)
    requires maxCursor % 2 == 1
    ensures older.Ok? && older.value.task == InboundEvent(first)
    ensures newer.Ok? && newer.value.task == InboundEvent(second)
    ensures drained == [newer.value, older.value]
  {
    hide Refines, Merged, Unmerged, InOrder, ReactorMesh.Bounded, ReactorMesh.Queues, Chosen;
    var mesh := Saturate(stableHash, maxCount, maxCursor, first);
    CursorAlternates(mesh.rrCursor, maxCursor);
    mesh.QueueAt(0);
    older := mesh.EnqueueEvent(first);
    mesh.QueueAt(0);
    newer := mesh.EnqueueEvent(second);
    assert mesh.fifo == [older.value, newer.value];
    NewerFirst(older.value, newer.value);
    drained := mesh.DrainGlobalOrder(2);
  }
}
