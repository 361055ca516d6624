/** The event loop without lazy cancellation: a sorted list of armed timers and a queue of
    tasks, with the history needed to say what happened to every timer. */
module SchedulerSpec {
  import opened Basics

  datatype Kind = TimerFired(timerId: nat) | HostcallComplete(callId: string) | InboundEvent(eventId: string)
  datatype Task = Task(seqNo: nat, kind: Kind)

  /** What is enqueued from outside; only timers themselves queue their firing. */
  type Posted = kind: Kind | !kind.TimerFired? witness HostcallComplete("")

  /** A timer is identified by its sequence number; ids are reused. */
  datatype Timer = Timer(id: nat, deadline: nat, seqNo: nat)
  datatype Firing = Firing(timer: Timer, at: nat)

  datatype Loop = Loop(
    next: nat,               // the sequence counter
    queue: seq<Task>,
    armed: seq<Timer>,       // by deadline, then sequence number
    fired: seq<Firing>,      // in the order their tasks were queued
    cleared: seq<Timer>,
    returned: seq<Task>)     // in the order ticks returned them

  function Start(): Loop {
    Loop(0, [], [], [], [], [])
  }

  predicate Before(a: Timer, b: Timer) {
    a.deadline < b.deadline || (a.deadline == b.deadline && a.seqNo < b.seqNo)
  }

  function Insert(timers: seq<Timer>, t: Timer): seq<Timer> {
    if timers == [] || Before(t, timers[0]) then [t] + timers
    else [timers[0]] + Insert(timers[1..], t)
  }

  /** The timers without the one that has this id. */
  function Disarm(timers: seq<Timer>, id: nat): seq<Timer> {
    if timers == [] then []
    else if timers[0].id == id then timers[1..]
    else [timers[0]] + Disarm(timers[1..], id)
  }

  function Find(timers: seq<Timer>, id: nat): (r: Option<Timer>)
    ensures r.Some? ==> r.value in timers && r.value.id == id
    ensures r.None? ==> forall t | t in timers :: t.id != id
  {
    if timers == [] then None
    else if timers[0].id == id then Some(timers[0])
    else Find(timers[1..], id)
  }

  function SetTimeout(l: Loop, id: nat, deadline: nat): Loop {
    l.(next := l.next + 1, armed := Insert(l.armed, Timer(id, deadline, l.next)))
  }

  function ClearTimeout(l: Loop, id: nat): Loop {
    match Find(l.armed, id)
    case None => l
    case Some(t) => l.(armed := Disarm(l.armed, id), cleared := l.cleared + [t])
  }

  function Enqueue(l: Loop, kind: Kind): Loop {
    l.(next := l.next + 1, queue := l.queue + [Task(l.next, kind)])
  }

  /** Queues a task for the first armed timer. */
  function FireFirst(l: Loop, now: nat): Loop
    requires l.armed != []
  {
    Enqueue(l, TimerFired(l.armed[0].id)).(armed := l.armed[1..], fired := l.fired + [Firing(l.armed[0], now)])
  }

  function MoveDue(l: Loop, now: nat): (r: Loop)
    ensures |r.queue| + |r.armed| == |l.queue| + |l.armed|
    ensures r.armed == [] || r.armed[0].deadline > now
    decreases |l.armed|
  {
    if l.armed == [] || l.armed[0].deadline > now then l else MoveDue(FireFirst(l, now), now)
  }

  function Tick(l: Loop, now: nat): (Loop, Option<Task>) {
    var m := MoveDue(l, now);
    if m.queue == [] then (m, None)
    else (m.(queue := m.queue[1..], returned := m.returned + [m.queue[0]]), Some(m.queue[0]))
  }

  predicate HasPending(l: Loop) {
    l.queue != [] || l.armed != []
  }

  // ---- Runs ----

  datatype Op =
    | Set(id: nat, deadline: nat)
    | Clear(id: nat)
    | Post(kind: Posted)
    | TickAt(now: nat)

  function Step(l: Loop, op: Op): Loop {
    match op
    case Set(id, deadline) => SetTimeout(l, id, deadline)
    case Clear(id) => ClearTimeout(l, id)
    case Post(kind) => Enqueue(l, kind)
    case TickAt(now) => Tick(l, now).0
  }

  function Run(l: Loop, ops: seq<Op>): Loop
    decreases |ops|
  {
    if ops == [] then l else Run(Step(l, ops[0]), ops[1..])
  }

  // ---- Invariants ----

  ghost predicate Sorted(timers: seq<Timer>) {
    forall i, j | 0 <= i < j < |timers| :: Before(timers[i], timers[j])
  }

  ghost predicate Rising(tasks: seq<Task>) {
    forall i, j | 0 <= i < j < |tasks| :: tasks[i].seqNo < tasks[j].seqNo
  }

  /** The timer with number `n`, wherever it has got to, as often as it occurs there. */
  function Fate(l: Loop, n: nat): nat {
    CountTimers(l.armed, n) + CountFirings(l.fired, n) + CountTimers(l.cleared, n)
  }

  function CountTimers(timers: seq<Timer>, n: nat): nat {
    if timers == [] then 0
    else CountTimers(timers[..|timers| - 1], n) + if timers[|timers| - 1].seqNo == n then 1 else 0
  }

  function CountFirings(firings: seq<Firing>, n: nat): nat {
    if firings == [] then 0
    else CountFirings(firings[..|firings| - 1], n) + if firings[|firings| - 1].timer.seqNo == n then 1 else 0
  }

  ghost predicate Orderly(l: Loop) {
    && Sorted(l.armed)
    && (forall t | t in l.armed :: t.seqNo < l.next)
    // Tasks are numbered in the order they were queued, and returned in that order.
    && Rising(l.returned + l.queue)
    && (forall x | x in l.returned + l.queue :: x.seqNo < l.next)
    // No timer fired before its deadline.
    && (forall f | f in l.fired :: f.timer.deadline <= f.at)
    // Every timer is in one place, once: armed, fired or cleared.
    && (forall n: nat :: Fate(l, n) <= (if n < l.next then 1 else 0))
  }

  lemma StartOrderly()
    ensures Orderly(Start())
  {
  }

  lemma {:induction false} CountSplit(a: seq<Timer>, b: seq<Timer>, n: nat)
    ensures CountTimers(a + b, n) == CountTimers(a, n) + CountTimers(b, n)
  {
    if b == [] {
      assert a + b == a;
    } else {
      assert (a + b)[..|a + b| - 1] == a + b[..|b| - 1];
      CountSplit(a, b[..|b| - 1], n);
    }
  }

  lemma CountOne(t: Timer, n: nat)
    ensures CountTimers([t], n) == if t.seqNo == n then 1 else 0
  {
    assert CountTimers([], n) == 0;
    assert [t][..0] == [];
  }

  lemma CountFiringSnoc(firings: seq<Firing>, f: Firing, n: nat)
    ensures CountFirings(firings + [f], n) == CountFirings(firings, n) + if f.timer.seqNo == n then 1 else 0
  {
    assert (firings + [f])[..|firings|] == firings;
  }

  lemma {:induction false} CountMember(timers: seq<Timer>, t: Timer)
    requires t in timers
    ensures CountTimers(timers, t.seqNo) >= 1
  {
    var last := |timers| - 1;
    if timers[last] != t {
      assert timers == timers[..last] + [timers[last]];
      CountMember(timers[..last], t);
    }
  }

  lemma {:induction false} CountFiringMember(firings: seq<Firing>, f: Firing)
    requires f in firings
    ensures CountFirings(firings, f.timer.seqNo) >= 1
  {
    var last := |firings| - 1;
    if firings[last] != f {
      assert firings == firings[..last] + [firings[last]];
      CountFiringMember(firings[..last], f);
    }
  }

  lemma SortedCons(head: Timer, tail: seq<Timer>)
    ensures Sorted([head] + tail) <==> Sorted(tail) && forall u | u in tail :: Before(head, u)
  {
    var all := [head] + tail;
    assert all[0] == head && forall i | 0 <= i < |tail| :: all[i + 1] == tail[i];
    if Sorted(all) {
      forall u | u in tail ensures Before(head, u) {
        var i :| 0 <= i < |tail| && tail[i] == u;
        assert Before(all[0], all[i + 1]);
      }
      forall i, j | 0 <= i < j < |tail| ensures Before(tail[i], tail[j]) {
        assert Before(all[i + 1], all[j + 1]);
      }
    }
  }

  /** Inserting keeps the order and adds exactly one timer. */
  lemma {:induction false} InsertSorted(timers: seq<Timer>, t: Timer)
    requires Sorted(timers) && forall u | u in timers :: u.seqNo < t.seqNo
    ensures Sorted(Insert(timers, t))
    ensures forall u :: u in Insert(timers, t) <==> u in timers || u == t
    ensures forall n: nat :: CountTimers(Insert(timers, t), n) == CountTimers(timers, n) + if t.seqNo == n then 1 else 0
  {
    if timers == [] || Before(t, timers[0]) {
      assert Insert(timers, t) == [t] + timers;
      forall u | u in timers ensures Before(t, u) {
        FirstIsLeast(timers, u);
      }
      SortedCons(t, timers);
      hide Sorted;
      forall n: nat ensures CountTimers([t] + timers, n) == CountTimers(timers, n) + if t.seqNo == n then 1 else 0 {
        CountSplit([t], timers, n);
        CountOne(t, n);
      }
    } else {
      var head, rest := timers[0], timers[1..];
      assert timers == [head] + rest;
      hide Sorted;
      SortedCons(head, rest);
      InsertSorted(rest, t);
      SortedCons(head, Insert(rest, t));
      forall n: nat ensures CountTimers(Insert(timers, t), n) == CountTimers(timers, n) + if t.seqNo == n then 1 else 0 {
        CountSplit([head], rest, n);
        CountSplit([head], Insert(rest, t), n);
      }
    }
  }

  lemma {:induction false} DisarmSorted(timers: seq<Timer>, id: nat)
    requires Sorted(timers)
    ensures Sorted(Disarm(timers, id))
    ensures forall u | u in Disarm(timers, id) :: u in timers
  {
    if timers != [] {
      var rest := timers[1..];
      assert forall i | 0 <= i < |rest| :: rest[i] == timers[i + 1];
      if timers[0].id != id {
        DisarmSorted(rest, id);
        var after := Disarm(rest, id);
        assert forall i | 0 <= i < |after| :: after[i] in rest;
      }
    }
  }

  lemma {:induction false} DisarmCount(timers: seq<Timer>, id: nat, n: nat)
    requires Find(timers, id).Some?
    ensures CountTimers(timers, n)
            == CountTimers(Disarm(timers, id), n) + if Find(timers, id).value.seqNo == n then 1 else 0
  {
    var rest := timers[1..];
    assert timers == [timers[0]] + rest;
    CountSplit([timers[0]], rest, n);
    CountOne(timers[0], n);
    if timers[0].id != id {
      DisarmCount(rest, id, n);
      CountSplit([timers[0]], Disarm(rest, id), n);
    }
  }

  lemma FateBound(l: Loop, n: nat)
    requires Orderly(l)
    ensures Fate(l, n) <= if n < l.next then 1 else 0
  {
  }

  lemma TaskOrderly(l: Loop, kind: Kind)
    requires Orderly(l)
    ensures Orderly(Enqueue(l, kind))
    ensures forall n: nat :: Fate(Enqueue(l, kind), n) == Fate(l, n)
  {
    var task := Task(l.next, kind);
    assert l.returned + (l.queue + [task]) == (l.returned + l.queue) + [task];
    forall n: nat ensures Fate(Enqueue(l, kind), n) <= (if n < l.next + 1 then 1 else 0) {
      FateBound(l, n);
    }
  }

  lemma FireOrderly(l: Loop, now: nat)
    requires Orderly(l) && l.armed != [] && l.armed[0].deadline <= now
    ensures Orderly(FireFirst(l, now))
    ensures forall n: nat :: Fate(FireFirst(l, now), n) == Fate(l, n)
  {
    TaskOrderly(l, TimerFired(l.armed[0].id));
    var t, rest := l.armed[0], l.armed[1..];
    assert l.armed == [t] + rest;
    forall n: nat ensures Fate(FireFirst(l, now), n) == Fate(l, n) {
      CountSplit([t], rest, n);
      CountOne(t, n);
      CountFiringSnoc(l.fired, Firing(t, now), n);
    }
  }

  lemma {:induction false} MoveDueOrderly(l: Loop, now: nat)
    requires Orderly(l)
    ensures Orderly(MoveDue(l, now))
    ensures forall n: nat :: Fate(MoveDue(l, now), n) == Fate(l, n)
    decreases |l.armed|
  {
    if l.armed != [] && l.armed[0].deadline <= now {
      FireOrderly(l, now);
      MoveDueOrderly(FireFirst(l, now), now);
    }
  }

  lemma SetOrderly(l: Loop, id: nat, deadline: nat)
    requires Orderly(l)
    ensures Orderly(SetTimeout(l, id, deadline))
    ensures forall n: nat :: Fate(SetTimeout(l, id, deadline), n) == if n == l.next then 1 else Fate(l, n)
  {
    var t := Timer(id, deadline, l.next);
    InsertSorted(l.armed, t);
    FateBound(l, l.next);
    forall n: nat ensures Fate(SetTimeout(l, id, deadline), n) <= (if n < l.next + 1 then 1 else 0) {
      FateBound(l, n);
    }
  }

  lemma ClearOrderly(l: Loop, id: nat)
    requires Orderly(l)
    ensures Orderly(ClearTimeout(l, id))
    ensures forall n: nat :: Fate(ClearTimeout(l, id), n) == Fate(l, n)
  {
    if Find(l.armed, id).Some? {
      var t := Find(l.armed, id).value;
      DisarmSorted(l.armed, id);
      forall n: nat ensures Fate(ClearTimeout(l, id), n) == Fate(l, n) {
        DisarmCount(l.armed, id, n);
        CountSplit(l.cleared, [t], n);
        CountOne(t, n);
      }
    }
  }

  /** A timer is never lost: once set it is armed, fired or cleared, in exactly one way. */
  lemma StepOrderly(l: Loop, op: Op)
    requires Orderly(l)
    ensures Orderly(Step(l, op))
    ensures forall n: nat :: Fate(Step(l, op), n) == if op.Set? && n == l.next then 1 else Fate(l, n)
  {
    match op
    case Set(id, deadline) => SetOrderly(l, id, deadline);
    case Clear(id) => ClearOrderly(l, id);
    case Post(kind) => TaskOrderly(l, kind);
    case TickAt(now) =>
      MoveDueOrderly(l, now);
      var m := MoveDue(l, now);
      if m.queue != [] {
        assert (m.returned + [m.queue[0]]) + m.queue[1..] == m.returned + m.queue;
        assert forall n: nat :: Fate(Tick(l, now).0, n) == Fate(m, n);
      }
  }

  /** Over every run: each timer fires at most once, never early and never after a
      successful clear, and ticks return tasks in strictly increasing order. */
  lemma {:induction false} RunOrderly(l: Loop, ops: seq<Op>)
    requires Orderly(l)
    ensures Orderly(Run(l, ops))
    decreases |ops|
  {
    if ops != [] {
      StepOrderly(l, ops[0]);
      RunOrderly(Step(l, ops[0]), ops[1..]);
    }
  }

  lemma ReachableOrderly(ops: seq<Op>)
    ensures Orderly(Run(Start(), ops))
  {
    StartOrderly();
    RunOrderly(Start(), ops);
  }

  // ---- What became of a timer ----

  lemma {:induction false} RunKeepsHistory(l: Loop, ops: seq<Op>)
    ensures l.fired <= Run(l, ops).fired && l.cleared <= Run(l, ops).cleared
    ensures l.returned <= Run(l, ops).returned
    ensures l.returned + l.queue <= Run(l, ops).returned + Run(l, ops).queue
    decreases |ops|
  {
    if ops != [] {
      StepKeepsHistory(l, ops[0]);
      RunKeepsHistory(Step(l, ops[0]), ops[1..]);
    }
  }

  lemma {:induction false} MoveDueKeepsHistory(l: Loop, now: nat)
    ensures var m := MoveDue(l, now);
            && l.fired <= m.fired && m.cleared == l.cleared && m.returned == l.returned && l.queue <= m.queue
    decreases |l.armed|
  {
    if l.armed != [] && l.armed[0].deadline <= now {
      MoveDueKeepsHistory(FireFirst(l, now), now);
    }
  }

  lemma StepKeepsHistory(l: Loop, op: Op)
    ensures var m := Step(l, op);
            && l.fired <= m.fired && l.cleared <= m.cleared && l.returned <= m.returned
            && l.returned + l.queue <= m.returned + m.queue
  {
    match op
    case TickAt(now) =>
      MoveDueKeepsHistory(l, now);
      var m := MoveDue(l, now);
      if m.queue != [] {
        assert (m.returned + [m.queue[0]]) + m.queue[1..] == m.returned + m.queue;
      }
    case _ =>
  }

  /** A timer whose clear succeeded never fires, in any continuation. */
  lemma ClearedNeverFires(l: Loop, id: nat, ops: seq<Op>)
    requires Orderly(l) && Find(l.armed, id).Some?
    ensures forall f | f in Run(ClearTimeout(l, id), ops).fired :: f.timer.seqNo != Find(l.armed, id).value.seqNo
  {
    var t := Find(l.armed, id).value;
    var m := ClearTimeout(l, id);
    var r := Run(m, ops);
    ClearOrderly(l, id);
    RunOrderly(m, ops);
    RunKeepsHistory(m, ops);
    assert m.cleared[|l.cleared|] == t;
    assert r.cleared[|l.cleared|] == t;
    CountMember(r.cleared, t);
    forall f | f in r.fired ensures f.timer.seqNo != t.seqNo {
      CountFiringMember(r.fired, f);
      FateBound(r, t.seqNo);
    }
  }

  /** Of two timers armed together the earlier one, by deadline and then by number, fires
      first: when the later one has fired, the earlier one fired before it or was cleared. */
  ghost predicate FiredInOrder(l: Loop, a: Timer, b: Timer) {
    forall j | 0 <= j < |l.fired| && l.fired[j].timer == b ::
      a in l.cleared || exists i | 0 <= i < j :: l.fired[i].timer == a
  }

  ghost predicate Traced(l: Loop, a: Timer) {
    a in l.armed || a in l.cleared || exists i | 0 <= i < |l.fired| :: l.fired[i].timer == a
  }

  lemma {:induction false} ArmedTogether(l: Loop, ops: seq<Op>, a: Timer, b: Timer)
    requires Orderly(l) && Before(a, b) && a != b && FiredInOrder(l, a, b) && Traced(l, a)
    ensures FiredInOrder(Run(l, ops), a, b)
    decreases |ops|
  {
    if ops != [] {
      StepOrderly(l, ops[0]);
      StepInOrder(l, ops[0], a, b);
      ArmedTogether(Step(l, ops[0]), ops[1..], a, b);
    }
  }

  lemma FirstIsLeast(timers: seq<Timer>, a: Timer)
    requires Sorted(timers)
    ensures a in timers ==> a == timers[0] || Before(timers[0], a)
  {
  }

  lemma FireInOrder(l: Loop, now: nat, a: Timer, b: Timer)
    requires Orderly(l) && l.armed != [] && Before(a, b) && FiredInOrder(l, a, b) && Traced(l, a)
    ensures FiredInOrder(FireFirst(l, now), a, b) && Traced(FireFirst(l, now), a)
  {
    var m := FireFirst(l, now);
    var first := l.armed[0];
    assert l.armed == [first] + l.armed[1..];
    assert m.fired[|l.fired|].timer == first;
    FirstIsLeast(l.armed, a);
    forall j | 0 <= j < |m.fired| && m.fired[j].timer == b
      ensures a in m.cleared || exists i | 0 <= i < j :: m.fired[i].timer == a
    {
      if j < |l.fired| {
        assert l.fired[j].timer == b;
        if a !in l.cleared {
          var i :| 0 <= i < j && l.fired[i].timer == a;
          assert m.fired[i].timer == a;
        }
      } else if a !in l.cleared {
        var i :| 0 <= i < |l.fired| && l.fired[i].timer == a;
        assert m.fired[i].timer == a;
      }
    }
    if a in l.armed {
      assert a == first || a in l.armed[1..];
    } else if a !in l.cleared {
      var i :| 0 <= i < |l.fired| && l.fired[i].timer == a;
      assert m.fired[i].timer == a;
    }
  }

  lemma {:induction false} MoveDueInOrder(l: Loop, now: nat, a: Timer, b: Timer)
    requires Orderly(l) && Before(a, b) && FiredInOrder(l, a, b) && Traced(l, a)
    ensures FiredInOrder(MoveDue(l, now), a, b) && Traced(MoveDue(l, now), a)
    decreases |l.armed|
  {
    if l.armed != [] && l.armed[0].deadline <= now {
      FireInOrder(l, now, a, b);
      FireOrderly(l, now);
      MoveDueInOrder(FireFirst(l, now), now, a, b);
    }
  }

  lemma {:induction false} DisarmOnlyFound(timers: seq<Timer>, id: nat, a: Timer)
    requires a in timers && Find(timers, id).Some? && a != Find(timers, id).value
    ensures a in Disarm(timers, id)
  {
    assert timers == [timers[0]] + timers[1..];
    if timers[0].id != id && a != timers[0] {
      DisarmOnlyFound(timers[1..], id, a);
    }
  }

  lemma StepInOrder(l: Loop, op: Op, a: Timer, b: Timer)
    requires Orderly(l) && Before(a, b) && FiredInOrder(l, a, b) && Traced(l, a)
    ensures FiredInOrder(Step(l, op), a, b) && Traced(Step(l, op), a)
  {
    match op
    case Set(id, deadline) => InsertSorted(l.armed, Timer(id, deadline, l.next));
    case Clear(id) =>
      if a in l.armed && Find(l.armed, id).Some? {
        if a != Find(l.armed, id).value {
          DisarmOnlyFound(l.armed, id, a);
        }
      }
    case Post(kind) =>
    case TickAt(now) => MoveDueInOrder(l, now, a, b);
  }

  /** Of two armed timers the one with the earlier deadline or, between equal deadlines, the
      one set first fires first. */
  lemma TimersFireInOrder(l: Loop, ops: seq<Op>, a: Timer, b: Timer)
    requires Orderly(l) && a in l.armed && b in l.armed
    requires a.deadline < b.deadline || (a.deadline == b.deadline && a.seqNo < b.seqNo)
    ensures FiredInOrder(Run(l, ops), a, b)
  {
    forall j | 0 <= j < |l.fired| ensures l.fired[j].timer != b {
      CountFiringMember(l.fired, l.fired[j]);
      CountMember(l.armed, b);
      FateBound(l, b.seqNo);
    }
    ArmedTogether(l, ops, a, b);
  }

  /** Over every run: of two timers the one set first, with a deadline no later than the
      other's, fires first unless it is cleared. */
  lemma SetFirstFiresFirst(before: seq<Op>, idA: nat, deadlineA: nat, between: seq<Op>,
                           idB: nat, deadlineB: nat, after: seq<Op>)
    requires deadlineA <= deadlineB
    ensures var l := Run(Start(), before);
            var m := Run(SetTimeout(l, idA, deadlineA), between);
            FiredInOrder(Run(SetTimeout(m, idB, deadlineB), after),
                         Timer(idA, deadlineA, l.next), Timer(idB, deadlineB, m.next))
  {
    var l := Run(Start(), before);
    var set1 := SetTimeout(l, idA, deadlineA);
    var m := Run(set1, between);
    var a, b := Timer(idA, deadlineA, l.next), Timer(idB, deadlineB, m.next);
    ReachableOrderly(before);
    StepOrderly(l, Set(idA, deadlineA));
    InsertSorted(l.armed, a);
    NextGrows(set1, between);
    forall j | 0 <= j < |set1.fired| ensures set1.fired[j].timer != b {
      CountFiringMember(set1.fired, set1.fired[j]);
      FateBound(set1, b.seqNo);
    }
    hide FiredInOrder, Orderly, Run, Traced;
    TracedWhenArmed(set1, a);
    NotYetFired(set1, a, b);
    ArmedTogether(set1, between + [Set(idB, deadlineB)] + after, a, b);
    RunSplit(set1, between, [Set(idB, deadlineB)] + after);
    assert between + ([Set(idB, deadlineB)] + after) == between + [Set(idB, deadlineB)] + after;
    RunHead(m, Set(idB, deadlineB), after);
  }

  lemma TracedWhenArmed(l: Loop, a: Timer)
    requires a in l.armed
    ensures Traced(l, a)
  {
  }

  lemma NotYetFired(l: Loop, a: Timer, b: Timer)
    requires forall j | 0 <= j < |l.fired| :: l.fired[j].timer != b
    ensures FiredInOrder(l, a, b)
  {
  }

  lemma RunHead(l: Loop, op: Op, rest: seq<Op>)
    ensures Run(l, [op] + rest) == Run(Step(l, op), rest)
  {
    assert ([op] + rest)[1..] == rest;
  }

  lemma {:induction false} RunSplit(l: Loop, first: seq<Op>, rest: seq<Op>)
    ensures Run(l, first + rest) == Run(Run(l, first), rest)
    decreases |first|
  {
    if first == [] {
      assert first + rest == rest;
    } else {
      assert (first + rest)[1..] == first[1..] + rest;
      RunSplit(Step(l, first[0]), first[1..], rest);
    }
  }

  lemma {:induction false} NextGrows(l: Loop, ops: seq<Op>)
    ensures l.next <= Run(l, ops).next
    decreases |ops|
  {
    if ops != [] {
      if ops[0].TickAt? {
        MoveDueNext(l, ops[0].now);
      }
      NextGrows(Step(l, ops[0]), ops[1..]);
    }
  }

  lemma {:induction false} MoveDueNext(l: Loop, now: nat)
    ensures l.next <= MoveDue(l, now).next
    decreases |l.armed|
  {
    if l.armed != [] && l.armed[0].deadline <= now {
      MoveDueNext(FireFirst(l, now), now);
    }
  }

  /** Two timers with the same deadline come back in the order they were set. */
  lemma EqualDeadlines(first: nat, second: nat, deadline: nat, now: nat, later: nat)
    requires deadline <= now
    ensures var l := Run(Start(), [Set(first, deadline), Set(second, deadline), TickAt(now)]);
            && l.returned == [Task(2, TimerFired(first))]
            && Tick(l, later).1 == Some(Task(3, TimerFired(second)))
  {
    var ops := [Set(first, deadline), Set(second, deadline), TickAt(now)];
    var l1 := SetTimeout(Start(), first, deadline);
    var l2 := SetTimeout(l1, second, deadline);
    assert l1.armed == [Timer(first, deadline, 0)];
    assert l1.armed[1..] == [] && Insert([], Timer(second, deadline, 1)) == [Timer(second, deadline, 1)];
    assert l2.armed == Insert(l1.armed, Timer(second, deadline, 1));
    assert l2.armed == [Timer(first, deadline, 0), Timer(second, deadline, 1)];
    var m1 := FireFirst(l2, now);
    assert m1.armed == [Timer(second, deadline, 1)];
    var m2 := FireFirst(m1, now);
    assert m2.armed == [] && MoveDue(m2, now) == m2 && MoveDue(m1, now) == m2 && MoveDue(l2, now) == m2;
    assert m2.queue == [Task(2, TimerFired(first)), Task(3, TimerFired(second))];
    var l := Tick(l2, now).0;
    assert l.queue == [Task(3, TimerFired(second))];
    assert ops[1..] == [Set(second, deadline), TickAt(now)] && ops[1..][1..] == [TickAt(now)];
    assert Run(l, []) == l && Run(l2, [TickAt(now)]) == l && Run(l1, ops[1..]) == l;
  }

  /** Of the timers `armed` exactly the due ones have fired at `now`, and the others are left. */
  ghost predicate DueFired(armed: seq<Timer>, left: seq<Timer>, firings: seq<Firing>, now: nat) {
    && (forall t | t in armed :: if t.deadline <= now then Firing(t, now) in firings else t in left)
    && (forall t | t in left :: t in armed && t.deadline > now)
    && |firings| == |armed| - |left|
  }

  /** A tick fires exactly the timers that are due, and leaves the others armed. */
  lemma DueTimersFire(l: Loop, now: nat)
    requires Orderly(l)
    ensures var m := Tick(l, now).0;
            l.fired <= m.fired && DueFired(l.armed, m.armed, m.fired[|l.fired|..], now)
  {
    MoveDueFires(l, now);
    hide DueFired;
  }

  lemma {:induction false} MoveDueFires(l: Loop, now: nat)
    requires Orderly(l)
    ensures var m := MoveDue(l, now);
            l.fired <= m.fired && DueFired(l.armed, m.armed, m.fired[|l.fired|..], now)
    decreases |l.armed|
  {
    if l.armed != [] && l.armed[0].deadline <= now {
      var n := FireFirst(l, now);
      FireOrderly(l, now);
      MoveDueFires(n, now);
      MoveDueStep(l, now);
      hide Orderly, MoveDue, FireFirst, DueFired;
      var m := MoveDue(l, now);
      DueFiredCons(l.armed, m.armed, l.fired, m.fired, now);
    } else {
      NoneDue(l, now);
    }
  }

  lemma NoneDue(l: Loop, now: nat)
    requires Orderly(l) && (l.armed == [] || l.armed[0].deadline > now)
    ensures DueFired(l.armed, l.armed, l.fired[|l.fired|..], now)
  {
    forall t | t in l.armed ensures t.deadline > now {
      FirstIsLeast(l.armed, t);
    }
  }

  lemma DueFiredCons(armed: seq<Timer>, left: seq<Timer>, before: seq<Firing>, after: seq<Firing>, now: nat)
    requires armed != [] && armed[0].deadline <= now
    requires before + [Firing(armed[0], now)] <= after
    requires DueFired(armed[1..], left, after[|before| + 1..], now)
    ensures DueFired(armed, left, after[|before|..], now)
  {
    var first := Firing(armed[0], now);
    assert after[|before|] == first;
    assert after[|before|..] == [first] + after[|before| + 1..];
    assert armed == [armed[0]] + armed[1..];
  }

  lemma MoveDueStep(l: Loop, now: nat)
    requires l.armed != [] && l.armed[0].deadline <= now
    ensures MoveDue(l, now) == MoveDue(FireFirst(l, now), now)
    ensures FireFirst(l, now).armed == l.armed[1..]
    ensures FireFirst(l, now).fired == l.fired + [Firing(l.armed[0], now)]
  {
  }

  // ---- What ticks return for timers ----

  function TimerIds(tasks: seq<Task>): seq<nat> {
    if tasks == [] then []
    else
      var last := tasks[|tasks| - 1];
      TimerIds(tasks[..|tasks| - 1]) + if last.kind.TimerFired? then [last.kind.timerId] else []
  }

  function FiredIds(fired: seq<Firing>): seq<nat> {
    seq(|fired|, i requires 0 <= i < |fired| => fired[i].timer.id)
  }

  /** The timer tasks returned or still queued are exactly the firings, in order. */
  ghost predicate TasksAreFirings(l: Loop) {
    TimerIds(l.returned + l.queue) == FiredIds(l.fired)
  }

  lemma EnqueueTimerIds(l: Loop, kind: Kind)
    ensures var m := Enqueue(l, kind);
            TimerIds(m.returned + m.queue)
            == TimerIds(l.returned + l.queue) + if kind.TimerFired? then [kind.timerId] else []
  {
    var before, task := l.returned + l.queue, Task(l.next, kind);
    assert l.returned + (l.queue + [task]) == before + [task];
    assert (before + [task])[..|before|] == before;
  }

  lemma FireFirings(l: Loop, now: nat)
    requires TasksAreFirings(l) && l.armed != []
    ensures TasksAreFirings(FireFirst(l, now))
  {
    EnqueueTimerIds(l, TimerFired(l.armed[0].id));
  }

  lemma {:induction false} MoveDueFirings(l: Loop, now: nat)
    requires TasksAreFirings(l)
    ensures TasksAreFirings(MoveDue(l, now))
    decreases |l.armed|
  {
    if l.armed != [] && l.armed[0].deadline <= now {
      FireFirings(l, now);
      MoveDueFirings(FireFirst(l, now), now);
    }
  }

  lemma StepFirings(l: Loop, op: Op)
    requires TasksAreFirings(l)
    ensures TasksAreFirings(Step(l, op))
  {
    match op
    case Set(id, deadline) =>
    case Clear(id) =>
    case Post(kind) => EnqueueTimerIds(l, kind);
    case TickAt(now) =>
      MoveDueFirings(l, now);
      var m := MoveDue(l, now);
      if m.queue != [] {
        assert m.returned + [m.queue[0]] + m.queue[1..] == m.returned + m.queue;
      }
  }

  /** In every run from the start the timer tasks are exactly the firings, so what holds of
      firings holds of what ticks return. */
  lemma {:induction false} RunFirings(l: Loop, ops: seq<Op>)
    requires TasksAreFirings(l)
    ensures TasksAreFirings(Run(l, ops))
    decreases |ops|
  {
    if ops != [] {
      StepFirings(l, ops[0]);
      RunFirings(Step(l, ops[0]), ops[1..]);
    }
  }

  lemma ReachableFirings(ops: seq<Op>)
    ensures TasksAreFirings(Run(Start(), ops))
  {
    RunFirings(Start(), ops);
  }

  /** A timer already moved to the queue behind another task can no longer be cleared: the
      clear changes nothing and the next tick returns the timer. */
  lemma MovedTimerIsReturned(id: nat, deadline: nat, kind: Posted, now: nat, later: nat)
    requires deadline <= now
    ensures var l := Run(Start(), [Set(id, deadline), Post(kind), TickAt(now)]);
            && l.returned == [Task(1, kind)]
            && ClearTimeout(l, id) == l
            && Tick(ClearTimeout(l, id), later).1 == Some(Task(2, TimerFired(id)))
  {
    var ops := [Set(id, deadline), Post(kind), TickAt(now)];
    var started := SetTimeout(Start(), id, deadline);
    var posted := Enqueue(started, kind);
    assert started.armed == [Timer(id, deadline, 0)];
    var fired := FireFirst(posted, now);
    assert fired.armed == [] && MoveDue(posted, now) == fired;
    assert fired.queue == [Task(1, kind), Task(2, TimerFired(id))];
    var l := Tick(posted, now).0;
    assert l.queue == [Task(2, TimerFired(id))];
    assert ops[1..] == [Post(kind), TickAt(now)] && ops[1..][1..] == [TickAt(now)];
    assert Run(l, []) == l;
    assert Run(posted, [TickAt(now)]) == l;
    assert Run(started, ops[1..]) == l;
  }

  // ---- Pending work ----

  /** With nothing pending no sequence of ticks ever returns a task. */
  lemma {:induction false} NothingPendingStaysIdle(l: Loop, ops: seq<Op>)
    requires !HasPending(l) && forall op | op in ops :: op.TickAt?
    ensures Run(l, ops) == l
    decreases |ops|
  {
    if ops != [] {
      assert ops[0] in ops;
      NothingPendingStaysIdle(l, ops[1..]);
    }
  }

  /** A tick returns a task exactly when one is queued or the first timer is due. */
  lemma TickRunsIff(l: Loop, now: nat)
    ensures Tick(l, now).1.Some? <==> l.queue != [] || (l.armed != [] && l.armed[0].deadline <= now)
  {
    if l.queue == [] && l.armed != [] && l.armed[0].deadline <= now {
      MoveDueKeepsHistory(FireFirst(l, now), now);
    } else {
      MoveDueKeepsHistory(l, now);
    }
  }

  /** With something pending, every tick from some time on returns a task. */
  lemma PendingCanRun(l: Loop, now: nat)
    requires HasPending(l) && (l.queue != [] || l.armed[0].deadline <= now)
    ensures Tick(l, now).1.Some?
  {
    TickRunsIff(l, now);
    hide Tick;
  }

  /** A tick that returns nothing leaves only timers beyond the present. */
  lemma IdleTickMeansLater(l: Loop, now: nat)
    requires Orderly(l) && Tick(l, now).1.None?
    ensures Tick(l, now).0.queue == [] && forall t | t in Tick(l, now).0.armed :: t.deadline > now
  {
    MoveDueOrderly(l, now);
    var m := MoveDue(l, now);
    forall t | t in m.armed ensures t.deadline > now {
      var i :| 0 <= i < |m.armed| && m.armed[i] == t;
      assert i == 0 || Before(m.armed[0], t);
    }
  }

  /** Each successful tick uses up exactly one pending task or timer. */
  lemma TickCounts(l: Loop, now: nat)
    ensures var (m, task) := Tick(l, now);
            |m.queue| + |m.armed| + (if task.Some? then 1 else 0) == |l.queue| + |l.armed|
  {
  }
}
