/** The scheduler as implemented: a timer heap that keeps cancelled timers until they come
    due, two sets of timer ids, and a wrapping id search.  Below saturation of its counters
    it is proved to do what the loop of `SchedulerSpec` does. */
module Scheduler {
  import opened Basics
  import opened Seqs
  import opened SchedulerSpec

  // ---- Lazy cancellation, over plain values ----

  /** The timers that are still to fire. */
  function Active(heap: seq<Timer>, cancelled: set<nat>): seq<Timer> {
    if heap == [] then []
    else (if heap[0].id in cancelled then [] else [heap[0]]) + Active(heap[1..], cancelled)
  }

  ghost predicate DistinctIds(heap: seq<Timer>) {
    forall i, j | 0 <= i < j < |heap| :: heap[i].id != heap[j].id
  }

  function Ids(heap: seq<Timer>): set<nat> {
    set t | t in heap :: t.id
  }

  lemma {:induction false} ActiveMembers(heap: seq<Timer>, cancelled: set<nat>)
    ensures forall t :: t in Active(heap, cancelled) <==> t in heap && t.id !in cancelled
  {
    if heap != [] {
      ActiveMembers(heap[1..], cancelled);
      assert heap == [heap[0]] + heap[1..];
    }
  }

  lemma {:induction false} ActiveSorted(heap: seq<Timer>, cancelled: set<nat>)
    requires Sorted(heap)
    ensures Sorted(Active(heap, cancelled))
  {
    if heap != [] {
      assert forall i | 0 <= i < |heap[1..]| :: heap[1..][i] == heap[i + 1];
      ActiveSorted(heap[1..], cancelled);
      ActiveMembers(heap[1..], cancelled);
      var rest := Active(heap[1..], cancelled);
      assert forall t | t in heap[1..] :: Before(heap[0], t);
      assert forall i | 0 <= i < |rest| :: rest[i] in rest;
    }
  }

  lemma ActiveCons(head: Timer, tail: seq<Timer>, cancelled: set<nat>)
    ensures Active([head] + tail, cancelled)
            == if head.id in cancelled then Active(tail, cancelled) else [head] + Active(tail, cancelled)
  {
    assert ([head] + tail)[1..] == tail;
  }

  lemma InsertCons(head: Timer, tail: seq<Timer>, t: Timer)
    ensures Insert([head] + tail, t)
            == if Before(t, head) then [t] + ([head] + tail) else [head] + Insert(tail, t)
  {
    assert ([head] + tail)[1..] == tail;
  }

  lemma InsertFirst(timers: seq<Timer>, t: Timer)
    requires timers == [] || Before(t, timers[0])
    ensures Insert(timers, t) == [t] + timers
  {
  }

  lemma {:induction false} ActiveInsert(heap: seq<Timer>, cancelled: set<nat>, t: Timer)
    requires Sorted(heap) && t.id !in cancelled
    ensures Active(Insert(heap, t), cancelled) == Insert(Active(heap, cancelled), t)
  {
    hide Active, Insert, Before;
    if heap == [] || Before(t, heap[0]) {
      InsertFirst(heap, t);
      ActiveCons(t, heap, cancelled);
      ActiveLater(heap, cancelled, t);
      InsertFirst(Active(heap, cancelled), t);
    } else {
      var head, rest := heap[0], heap[1..];
      assert heap == [head] + rest;
      assert forall i | 0 <= i < |rest| :: rest[i] == heap[i + 1];
      ActiveInsert(rest, cancelled, t);
      InsertCons(head, rest, t);
      ActiveCons(head, Insert(rest, t), cancelled);
      ActiveCons(head, rest, cancelled);
      InsertCons(head, Active(rest, cancelled), t);
    }
  }

  lemma ActiveLater(heap: seq<Timer>, cancelled: set<nat>, t: Timer)
    requires Sorted(heap) && (heap == [] || Before(t, heap[0]))
    ensures Active(heap, cancelled) == [] || Before(t, Active(heap, cancelled)[0])
  {
    ActiveMembers(heap, cancelled);
    var active := Active(heap, cancelled);
    if active != [] {
      assert active[0] in heap;
      FirstIsLeast(heap, active[0]);
    }
  }

  lemma {:induction false} ActiveUnaffected(heap: seq<Timer>, cancelled: set<nat>, id: nat)
    requires id !in Ids(heap)
    ensures Active(heap, cancelled + {id}) == Active(heap, cancelled) == Active(heap, cancelled - {id})
  {
    if heap != [] {
      assert heap[0].id in Ids(heap);
      assert Ids(heap[1..]) <= Ids(heap);
      ActiveUnaffected(heap[1..], cancelled, id);
    }
  }

  lemma IdsPop(heap: seq<Timer>)
    requires DistinctIds(heap) && heap != []
    ensures Ids(heap[1..]) == Ids(heap) - {heap[0].id} && DistinctIds(heap[1..])
    ensures heap[0].id in Ids(heap)
  {
    assert heap == [heap[0]] + heap[1..];
    assert forall i | 0 <= i < |heap[1..]| :: heap[1..][i] == heap[i + 1];
  }

  lemma DisarmCons(head: Timer, tail: seq<Timer>, id: nat)
    ensures Disarm([head] + tail, id) == if head.id == id then tail else [head] + Disarm(tail, id)
  {
    assert ([head] + tail)[1..] == tail;
  }

  lemma {:induction false} ActiveCancel(heap: seq<Timer>, cancelled: set<nat>, id: nat)
    requires DistinctIds(heap) && id in Ids(heap) && id !in cancelled
    ensures Active(heap, cancelled + {id}) == Disarm(Active(heap, cancelled), id)
  {
    hide Active, Disarm;
    var head, rest := heap[0], heap[1..];
    assert heap == [head] + rest;
    IdsPop(heap);
    ActiveCons(head, rest, cancelled);
    ActiveCons(head, rest, cancelled + {id});
    DisarmCons(head, Active(rest, cancelled), id);
    if head.id == id {
      ActiveUnaffected(rest, cancelled, id);
    } else {
      ActiveCancel(rest, cancelled, id);
    }
  }

  lemma ActiveLookup(heap: seq<Timer>, cancelled: set<nat>, id: nat)
    ensures Find(Active(heap, cancelled), id).Some? <==> id in Ids(heap) && id !in cancelled
  {
    ActiveMembers(heap, cancelled);
    if id in Ids(heap) && id !in cancelled {
      var t :| t in heap && t.id == id;
      assert t in Active(heap, cancelled);
    }
  }

  lemma {:induction false} IdsInsert(heap: seq<Timer>, t: Timer)
    requires DistinctIds(heap) && t.id !in Ids(heap)
    ensures Ids(Insert(heap, t)) == Ids(heap) + {t.id} && DistinctIds(Insert(heap, t))
  {
    if heap == [] || Before(t, heap[0]) {
      assert Insert(heap, t) == [t] + heap;
      assert forall i | 0 <= i < |heap| :: heap[i].id in Ids(heap);
    } else {
      var rest := heap[1..];
      IdsPop(heap);
      IdsInsert(rest, t);
      var after := Insert(rest, t);
      assert Insert(heap, t) == [heap[0]] + after;
      assert forall i | 0 <= i < |after| :: after[i].id in Ids(after);
      assert heap == [heap[0]] + rest;
    }
  }

  lemma {:induction false} IdsCount(heap: seq<Timer>)
    ensures |Ids(heap)| <= |heap|
  {
    if heap != [] {
      IdsCount(heap[1..]);
      assert Ids(heap) == Ids(heap[1..]) + {heap[0].id};
    }
  }

  function IdsUpTo(n: nat): set<nat> {
    if n == 0 then {} else IdsUpTo(n - 1) + {n}
  }

  lemma {:induction false} IdRange(n: nat)
    ensures |IdsUpTo(n)| == n
    ensures forall id: nat :: id in IdsUpTo(n) <==> 1 <= id <= n
  {
    if n > 0 {
      IdRange(n - 1);
    }
  }

  /** Fewer timers than ids leave an id free. */
  lemma SomeIdFree(ids: set<nat>, max: nat)
    requires |ids| < max
    ensures exists id: nat :: 1 <= id <= max && id !in ids
  {
    IdRange(max);
    if IdsUpTo(max) <= ids {
      SubsetCard(IdsUpTo(max), ids);
    } else {
      var id :| id in IdsUpTo(max) && id !in ids;
    }
  }

  // ---- The implementation ----

  class Scheduler {
    const maxCount: nat  // u64::MAX
    var sequence: nat
    var macrotasks: seq<Task>
    /** The timer heap in pop order; cancelled timers stay until they come due. */
    var heap: seq<Timer>
    var nextTimerId: nat
    var cancelledTimers: set<nat>
    var heapTimerIds: set<nat>
    /** The loop without lazy cancellation. */
    ghost var model: Loop

    ghost predicate Valid()
      reads this
    {
      1 <= nextTimerId <= maxCount && sequence <= maxCount
    }

    /** The scheduler is exactly the loop `model`; true until a counter saturates. */
    ghost predicate Exact()
      reads this
    {
      && Sorted(heap) && DistinctIds(heap) && (forall t | t in heap :: t.seqNo < sequence)
      && heapTimerIds == Ids(heap) && cancelledTimers <= heapTimerIds
      && model.armed == Active(heap, cancelledTimers)
      && model.queue == macrotasks && model.next == sequence
      && Orderly(model)
    }

    constructor (maxCount: nat)
      requires maxCount >= 1
      ensures Valid() && Exact() && model == Start() && this.maxCount == maxCount && heap == []
    {
      this.maxCount := maxCount;
      sequence, macrotasks, heap, nextTimerId := 0, [], [], 1;
      cancelledTimers, heapTimerIds, model := {}, {}, Start();
    }

    method NextSeq() returns (current: nat)
      requires Valid()
      modifies this`sequence
      ensures Valid() && current == old(sequence)
      ensures sequence == Saturating(current, maxCount)
    {
      current := sequence;
      sequence := Saturating(sequence, maxCount);
    }

    /** Where a search that started at `start` stands after `steps` candidates. */
    function Candidate(start: nat, steps: nat): nat {
      if start + steps <= maxCount then start + steps else start + steps - maxCount
    }

    /** Finds an id that no timer in the heap has, wrapping around once; only when all ids
        are taken does it fall back to the last one. */
    method AllocateTimerId() returns (id: nat)
      requires Valid()
      modifies this`nextTimerId
      ensures Valid() && 1 <= id <= maxCount
      ensures (exists free: nat :: 1 <= free <= maxCount && free !in heapTimerIds) ==> id !in heapTimerIds
      ensures (forall taken: nat :: 1 <= taken <= maxCount ==> taken in heapTimerIds) ==> id == maxCount
    {
      var start := nextTimerId;
      var candidate := start;
      ghost var steps := 0;
      while true
        invariant Valid() && 1 <= start <= maxCount
        invariant steps < maxCount && candidate == Candidate(start, steps)
        invariant forall k | 0 <= k < steps :: Candidate(start, k) in heapTimerIds
        decreases maxCount - steps
      {
        nextTimerId := if candidate == maxCount then 1 else candidate + 1;
        if candidate !in heapTimerIds {
          return candidate;
        }
        candidate := nextTimerId;
        steps := steps + 1;
        if candidate == start {
          break;
        }
      }
      forall taken: nat | 1 <= taken <= maxCount ensures taken in heapTimerIds {
        assert Candidate(start, if taken >= start then taken - start else taken + maxCount - start) == taken;
      }
      id := maxCount;
    }

    method SetTimeout(delay: nat, now: nat) returns (id: nat)
      requires Valid()
      modifies this
      ensures Valid() && 1 <= id <= maxCount
      ensures old(Exact()) && |old(heap)| < maxCount && old(sequence) < maxCount ==>
                && Exact() && id !in old(heapTimerIds)
                && model == SchedulerSpec.SetTimeout(old(model), id, if maxCount < now + delay then maxCount else now + delay)
                && |heap| == |old(heap)| + 1
    {
      hide Orderly, Sorted, Insert, Active, DistinctIds, Ids;
      id := AllocateTimerId();
      var deadline := SaturatingAdd(now, delay);
      var seqNo := NextSeq();
      var t := Timer(id, deadline, seqNo);
      ghost var sound := old(Exact()) && |heap| < maxCount && old(sequence) < maxCount;
      if sound {
        SetFacts(heap, cancelledTimers, heapTimerIds, maxCount, t);
        SetOrderly(model, id, deadline);
      }
      heap := Insert(heap, t);
      heapTimerIds := heapTimerIds + {id};
      model := SchedulerSpec.SetTimeout(model, id, deadline);
    }

    function SaturatingAdd(a: nat, b: nat): nat {
      if a + b <= maxCount then a + b else maxCount
    }

    method ClearTimeout(id: nat) returns (cancelled: bool)
      requires Valid()
      modifies this
      ensures Valid() && heap == old(heap) && sequence == old(sequence)
      ensures old(Exact()) ==>
                && Exact() && model == SchedulerSpec.ClearTimeout(old(model), id)
                && (cancelled <==> Find(old(model).armed, id).Some?)
    {
      hide Orderly, Sorted;
      ghost var sound := Exact();
      if sound {
        ActiveLookup(heap, cancelledTimers, id);
        ClearOrderly(model, id);
      }
      cancelled := id in heapTimerIds && id !in cancelledTimers;
      if cancelled {
        if sound {
          ActiveCancel(heap, cancelledTimers, id);
        }
        cancelledTimers := cancelledTimers + {id};
      }
      model := SchedulerSpec.ClearTimeout(model, id);
    }

    /** A hostcall completion or an inbound event. */
    method Enqueue(kind: Posted)
      requires Valid()
      modifies this
      ensures Valid() && heap == old(heap)
      ensures old(Exact()) && old(sequence) < maxCount ==>
                Exact() && model == SchedulerSpec.Enqueue(old(model), kind)
    {
      hide Orderly, Sorted;
      if Exact() {
        TaskOrderly(model, kind);
      }
      var seqNo := NextSeq();
      macrotasks := macrotasks + [Task(seqNo, kind)];
      model := SchedulerSpec.Enqueue(model, kind);
    }

    method MoveDueTimers(now: nat)
      requires Valid()
      modifies this
      ensures Valid()
      ensures old(Exact()) && old(sequence) + |old(heap)| <= maxCount ==>
                && Exact() && model == MoveDue(old(model), now)
                && sequence + |heap| <= old(sequence) + |old(heap)|
    {
      hide Orderly, Sorted, Active, MoveDue, DistinctIds, Ids;
      ghost var sound, room := Exact() && sequence + |heap| <= maxCount, sequence + |heap|;
      while heap != [] && heap[0].deadline <= now
        invariant Valid()
        invariant sound ==> Exact() && sequence + |heap| <= room <= maxCount
        invariant sound ==> MoveDue(model, now) == MoveDue(old(model), now)
        decreases |heap|
      {
        PopTimer(now, sound);
      }
      if sound {
        NothingDue(heap, cancelledTimers, model, now);
      }
    }

    /** Takes the first timer off the heap and, unless it was cancelled, queues its task. */
    method PopTimer(now: nat, ghost sound: bool)
      requires Valid() && heap != [] && heap[0].deadline <= now
      requires sound ==> Exact() && sequence + |heap| <= maxCount
      modifies this
      ensures Valid() && heap == old(heap)[1..]
      ensures sound ==> Exact() && sequence + |heap| <= old(sequence) + |old(heap)|
      ensures sound ==> MoveDue(model, now) == MoveDue(old(model), now)
    {
      hide Orderly, Sorted, Active, MoveDue, DistinctIds, Ids;
      var entry := heap[0];
      if sound {
        PopFacts(heap, cancelledTimers, model, now);
      }
      heap := heap[1..];
      heapTimerIds := heapTimerIds - {entry.id};
      if entry.id in cancelledTimers {
        cancelledTimers := cancelledTimers - {entry.id};
      } else {
        var seqNo := NextSeq();
        macrotasks := macrotasks + [Task(seqNo, TimerFired(entry.id))];
        model := if model.armed == [] then model else FireFirst(model, now);
      }
    }

    method Tick(now: nat) returns (task: Option<Task>)
      requires Valid()
      modifies this
      ensures Valid()
      ensures old(Exact()) && old(sequence) + |old(heap)| <= maxCount ==>
                && Exact() && (model, task) == SchedulerSpec.Tick(old(model), now)
                && sequence + |heap| <= old(sequence) + |old(heap)|
    {
      hide Sorted, Active, MoveDue, DistinctIds, Ids, Orderly;
      if Exact() && sequence + |heap| <= maxCount {
        StepOrderly(model, TickAt(now));
      }
      MoveDueTimers(now);
      ghost var moved := model;
      if macrotasks == [] {
        task := None;
      } else {
        task := Some(macrotasks[0]);
        macrotasks := macrotasks[1..];
      }
      model := if moved.queue == [] then moved
               else moved.(queue := moved.queue[1..], returned := moved.returned + [moved.queue[0]]);
    }

    /** The number of timers that are still to fire. */
    method TimerCount() returns (n: nat)
      ensures n == |Active(heap, cancelledTimers)|
    {
      n := 0;
      for i := 0 to |heap|
        invariant n + |Active(heap[i..], cancelledTimers)| == |Active(heap, cancelledTimers)|
      {
        assert heap[i..][1..] == heap[i + 1..];
        if heap[i].id !in cancelledTimers {
          n := n + 1;
        }
      }
    }

    method IsPending() returns (pending: bool)
      ensures Exact() ==> (pending <==> HasPending(model))
    {
      var timers := TimerCount();
      pending := macrotasks != [] || timers > 0;
    }

    /** The least deadline among the timers still to fire. */
    method NextTimerDeadline() returns (deadline: Option<nat>)
      ensures Exact() ==> deadline == if model.armed == [] then None else Some(model.armed[0].deadline)
    {
      deadline := None;
      for i := 0 to |heap|
        invariant deadline.None? ==> forall j | 0 <= j < i :: heap[j].id in cancelledTimers
        invariant deadline.Some? ==>
                    && (forall j | 0 <= j < i && heap[j].id !in cancelledTimers :: deadline.value <= heap[j].deadline)
                    && exists j | 0 <= j < i :: heap[j].id !in cancelledTimers && heap[j].deadline == deadline.value
      {
        if heap[i].id !in cancelledTimers && (deadline.None? || heap[i].deadline < deadline.value) {
          deadline := Some(heap[i].deadline);
        }
      }
      ActiveMembers(heap, cancelledTimers);
      if Exact() && model.armed != [] {
        var first := model.armed[0];
        assert first in Active(heap, cancelledTimers);
        var k :| 0 <= k < |heap| && heap[k] == first;
        if deadline.Some? {
          var j :| 0 <= j < |heap| && heap[j].id !in cancelledTimers && heap[j].deadline == deadline.value;
          assert heap[j] in model.armed;
          FirstIsLeast(model.armed, heap[j]);
        }
      }
    }
  }

  /** What pushing a timer does to the heap and its indexes, while ids last. */
  lemma SetFacts(heap: seq<Timer>, cancelled: set<nat>, ids: set<nat>, max: nat, t: Timer)
    requires Sorted(heap) && DistinctIds(heap) && ids == Ids(heap) && cancelled <= ids
    requires |heap| < max && forall u | u in heap :: u.seqNo < t.seqNo
    ensures exists free: nat :: 1 <= free <= max && free !in ids
    ensures |Insert(heap, t)| == |heap| + 1 && Sorted(Insert(heap, t))
    ensures forall u | u in Insert(heap, t) :: u in heap || u == t
    ensures t.id !in ids ==>
              && DistinctIds(Insert(heap, t)) && Ids(Insert(heap, t)) == ids + {t.id}
              && Active(Insert(heap, t), cancelled) == Insert(Active(heap, cancelled), t)
  {
    IdsCount(heap);
    SomeIdFree(ids, max);
    InsertSorted(heap, t);
    InsertLength(heap, t);
    if t.id !in ids {
      IdsInsert(heap, t);
      ActiveInsert(heap, cancelled, t);
    }
  }

  lemma {:induction false} InsertLength(timers: seq<Timer>, t: Timer)
    ensures |Insert(timers, t)| == |timers| + 1
  {
    if timers != [] && !Before(t, timers[0]) {
      InsertLength(timers[1..], t);
    }
  }

  /** What taking the first heap entry off does to the indexes and to the loop. */
  lemma PopFacts(heap: seq<Timer>, cancelled: set<nat>, l: Loop, now: nat)
    requires Sorted(heap) && DistinctIds(heap) && heap != [] && heap[0].deadline <= now
    requires l.armed == Active(heap, cancelled) && Orderly(l)
    ensures Sorted(heap[1..]) && DistinctIds(heap[1..]) && Ids(heap[1..]) == Ids(heap) - {heap[0].id}
    ensures heap[0].id in cancelled ==> Active(heap[1..], cancelled - {heap[0].id}) == l.armed
    ensures heap[0].id !in cancelled ==>
              && l.armed != [] && l.armed[0] == heap[0]
              && l.armed[1..] == Active(heap[1..], cancelled)
              && Orderly(FireFirst(l, now)) && MoveDue(l, now) == MoveDue(FireFirst(l, now), now)
  {
    IdsPop(heap);
    assert forall i | 0 <= i < |heap[1..]| :: heap[1..][i] == heap[i + 1];
    ActiveCons(heap[0], heap[1..], cancelled);
    assert heap == [heap[0]] + heap[1..];
    hide Active, Ids, DistinctIds, Orderly, FireFirst;
    if heap[0].id in cancelled {
      ActiveUnaffected(heap[1..], cancelled, heap[0].id);
    } else {
      FireOrderly(l, now);
    }
  }

  lemma NothingDue(heap: seq<Timer>, cancelled: set<nat>, l: Loop, now: nat)
    requires Sorted(heap) && (heap == [] || heap[0].deadline > now) && l.armed == Active(heap, cancelled)
    ensures MoveDue(l, now) == l
  {
    ActiveMembers(heap, cancelled);
    if l.armed != [] {
      assert l.armed[0] in heap;
      FirstIsLeast(heap, l.armed[0]);
    }
  }

  /** Draining everything by jumping the clock to the next deadline whenever a tick is idle:
      it ends after exactly one tick per pending task and timer, and never jumps backwards. */
  method DrainToIdle(s: Scheduler, start: nat) returns (trace: seq<Task>, now: nat)
    requires s.Valid() && s.Exact() && s.sequence + |s.heap| <= s.maxCount
    modifies s
    ensures s.Valid() && s.Exact() && !HasPending(s.model) && now >= start
    ensures |trace| == |old(s.model).queue| + |old(s.model).armed|
    ensures s.model.returned == old(s.model).returned + trace
  {
    hide Sorted, Active, MoveDue, DistinctIds, Ids, Orderly;
    trace, now := [], start;
    ghost var idle := false;
    while true
      invariant s.Valid() && s.Exact() && s.sequence + |s.heap| <= s.maxCount && now >= start
      invariant |trace| + |s.model.queue| + |s.model.armed| == |old(s.model).queue| + |old(s.model).armed|
      invariant s.model.returned == old(s.model).returned + trace
      invariant idle ==> s.model.armed != [] && s.model.armed[0].deadline <= now
      decreases |s.model.queue| + |s.model.armed|, !idle
    {
      ghost var before := s.model;
      TickFacts(before, now);
      var task := s.Tick(now);
      if task.Some? {
        trace := trace + [task.value];
        idle := false;
        continue;
      }
      var next := s.NextTimerDeadline();
      if next.None? {
        break;
      }
      assert next.value > now;
      now := next.value;
      idle := true;
    }
  }

  lemma TickFacts(l: Loop, now: nat)
    requires Orderly(l)
    ensures var (m, task) := SchedulerSpec.Tick(l, now);
            && |m.queue| + |m.armed| + (if task.Some? then 1 else 0) == |l.queue| + |l.armed|
            && m.returned == l.returned + (if task.Some? then [task.value] else [])
            && (task.None? ==> m.queue == [] && forall t | t in m.armed :: t.deadline > now)
            && (l.armed != [] && l.armed[0].deadline <= now ==> task.Some?)
  {
    TickCounts(l, now);
    MoveDueKeepsHistory(l, now);
    if SchedulerSpec.Tick(l, now).1.None? {
      IdleTickMeansLater(l, now);
    }
    if l.armed != [] && l.armed[0].deadline <= now {
      MoveDueKeepsHistory(FireFirst(l, now), now);
    }
  }
}
