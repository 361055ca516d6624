/** Every interleaving of broker calls, replies, deadlines, unloads, closing and dropping.

    Each critical section is one step.  A client call takes several: it registers, then
    sends its envelope, then waits; anything may happen in between. */
module BrokerRuns {
  import opened Basics
  import opened Seqs
  import opened BrokerDesk

  const QUEUE_CAPACITY: nat := 64

  datatype Outcome = Replied(reply: Reply) | Failed(error: BrokerError)
  datatype Phase = Registered(deadline: bool) | Waiting(deadline: bool) | Returned(deadline: bool, outcome: Outcome)

  datatype System = System(
    desk: Desk,
    channel: seq<RequestId>,
    receiving: bool,
    calls: map<RequestId, Phase>)

  datatype Event =
    | Begin(extension: ExtensionId, operation: Operation, deadline: bool)
    | Send(request: RequestId)
    | Receive
    | Wake(request: RequestId)
    | Expire(request: RequestId)
    | Cancel(request: RequestId)
    | UnloadExtension(extension: ExtensionId)
    | CloseClient
    | ServerReply(request: RequestId, reply: Reply)
    | ServerQueuePoll(request: RequestId)
    | ServerInput(event: string)
    | DropServer
    | DropReceiver

  function Start(): System {
    System(Initial(), [], true, map[])
  }

  function ReplyTo(settled: seq<Settlement>, id: RequestId): (r: Option<Reply>)
    ensures r.Some? <==> id in Ids(settled)
    ensures r.Some? ==> Settlement(id, r.value) in settled
  {
    if settled == [] then None
    else
      assert Ids(settled) == Ids(settled[..|settled| - 1]) + [settled[|settled| - 1].request];
      if settled[|settled| - 1].request == id then Some(settled[|settled| - 1].reply)
      else ReplyTo(settled[..|settled| - 1], id)
  }

  function Return(s: System, id: RequestId, outcome: Outcome): System
    requires id in s.calls
  {
    s.(calls := s.calls[id := Returned(s.calls[id].deadline, outcome)])
  }

  /** A step that is not possible in the current state changes nothing. */
  function Next(s: System, e: Event): System {
    match e
    case Begin(extension, operation, deadline) =>
      var (desk, error) := Register(s.desk, extension, operation);
      if error.Some? then s else s.(desk := desk, calls := s.calls[s.desk.next := Registered(deadline)])
    case Send(id) =>
      if id !in s.calls || !s.calls[id].Registered? then s
      else if !s.receiving then
        Return(s.(desk := Settle(s.desk, id, Cancelled)), id, Failed(Closed))
      else if |s.channel| >= QUEUE_CAPACITY then
        Return(s.(desk := Settle(s.desk, id, Cancelled)), id, Failed(QueueFull))
      else s.(channel := s.channel + [id], calls := s.calls[id := Waiting(s.calls[id].deadline)])
    case Receive => if s.channel == [] then s else s.(channel := s.channel[1..])
    case Wake(id) =>
      if id in s.calls && s.calls[id].Waiting? && ReplyTo(s.desk.settled, id).Some? then
        Return(s, id, Replied(ReplyTo(s.desk.settled, id).value))
      else s
    case Expire(id) =>
      if id in s.calls && s.calls[id] == Waiting(true) then
        Return(s.(desk := Settle(s.desk, id, Cancelled)), id, Replied(Cancelled))
      else s
    case Cancel(id) => s.(desk := Settle(s.desk, id, Cancelled))
    case UnloadExtension(extension) => s.(desk := Unload(s.desk, extension))
    case CloseClient => s.(desk := Close(s.desk))
    case ServerReply(id, reply) => s.(desk := Settle(s.desk, id, reply))
    case ServerQueuePoll(id) => s.(desk := QueuePoll(s.desk, id))
    case ServerInput(event) => s.(desk := ReplyInput(s.desk, event))
    case DropServer => s.(desk := Close(s.desk))
    case DropReceiver => if s.desk.closed then s.(receiving := false, channel := []) else s
  }

  function Run(s: System, events: seq<Event>): System
    decreases |events|
  {
    if events == [] then s else Run(Next(s, events[0]), events[1..])
  }

  // ---- Safety ----

  ghost predicate Safe(s: System) {
    && Sound(s.desk)
    && (forall id: nat :: id in s.calls <==> id < s.desk.next)
    && Distinct(s.channel) && |s.channel| <= QUEUE_CAPACITY
    && (forall id | id in s.channel :: id in s.calls && !s.calls[id].Registered?)
    && (!s.receiving ==> s.desk.closed)
    // What a caller is told is what its request was settled with, unless its deadline passed.
    && (forall id | id in s.calls && s.calls[id].Returned? && s.calls[id].outcome.Replied? ::
          || Settlement(id, s.calls[id].outcome.reply) in s.desk.settled
          || (s.calls[id].deadline && s.calls[id].outcome.reply == Cancelled && id in Ids(s.desk.settled)))
    // A call that returned is no longer open.
    && (forall id | id in s.calls && s.calls[id].Returned? :: id !in s.desk.open)
  }

  /** The desk's part of a step: it only ever adds to the log, and only `Begin` issues ids. */
  ghost predicate DeskMoves(d: Desk, e: Desk) {
    && d.settled <= e.settled && (d.closed ==> e.closed)
    && e.next == d.next
    && (forall id | id in e.open :: id in d.open && e.open[id] == d.open[id])
  }

  lemma SettleMoves(d: Desk, id: RequestId, reply: Reply)
    ensures DeskMoves(d, Settle(d, id, reply))
  {
  }

  lemma CancelAllMoves(d: Desk, ids: seq<RequestId>)
    ensures DeskMoves(d, CancelAll(d, ids))
  {
    CancelAllMeaning(d, ids);
  }

  lemma CloseMoves(d: Desk)
    ensures DeskMoves(d, Close(d)) && Close(d).closed && Close(d).open == map[]
  {
    CancelAllMeaning(d.(closed := true), Ascending(d.open.Keys));
    assert d.open - d.open.Keys == map[];
  }

  lemma RegisterMoves(d: Desk, extension: ExtensionId, operation: Operation)
    requires Sound(d)
    ensures var (e, error) := Register(d, extension, operation);
            && d.settled <= e.settled && e.closed == d.closed
            && (error.Some? ==> e == d)
            && (error.None? ==> e.next == d.next + 1)
            && (error.None? ==>
                  forall id | id in e.open ::
                    if id == d.next then e.open[id] == Ticket(extension, operation)
                    else id in d.open && e.open[id] == d.open[id])
  {
    CancelAllMeaning(d, Ascending(OpenWith(d, Ticket(extension, operation))));
  }

  lemma PrefixKeepsIds(a: seq<Settlement>, b: seq<Settlement>)
    requires a <= b
    ensures forall id | id in Ids(a) :: id in Ids(b)
    ensures forall x | x in a :: x in b
  {
    forall id | id in Ids(a) ensures id in Ids(b) {
      var i :| 0 <= i < |a| && Ids(a)[i] == id;
      assert Ids(b)[i] == b[i].request;
    }
  }

  /** A desk step between calls keeps the system safe. */
  lemma DeskStepSafe(s: System, desk: Desk)
    requires Safe(s) && Sound(desk) && DeskMoves(s.desk, desk)
    ensures Safe(s.(desk := desk))
  {
    hide Sound, Ids;
    PrefixKeepsIds(s.desk.settled, desk.settled);
  }

  /** A call returns after its request was settled. */
  lemma ReturnSafe(s: System, id: RequestId, outcome: Outcome)
    requires Safe(s) && id in s.calls && id !in s.desk.open && !s.calls[id].Returned?
    requires outcome.Replied? ==>
               || Settlement(id, outcome.reply) in s.desk.settled
               || (s.calls[id].deadline && outcome.reply == Cancelled && id in Ids(s.desk.settled))
    ensures Safe(Return(s, id, outcome))
  {
    hide Sound, Ids;
  }

  lemma SettledIds(d: Desk, id: RequestId, reply: Reply)
    requires Sound(d) && id < d.next
    ensures id !in Settle(d, id, reply).open && id in Ids(Settle(d, id, reply).settled)
  {
    if id in d.open {
      assert Ids(d.settled + [Settlement(id, reply)]) == Ids(d.settled) + [id];
    }
  }

  lemma NextSafe(s: System, e: Event)
    requires Safe(s)
    ensures Safe(Next(s, e))
  {
    hide Sound, Ids, Register, DeskMoves;
    match e
    case Begin(extension, operation, deadline) => BeginSafe(s, extension, operation, deadline);
    case Send(id) =>
      if id in s.calls && s.calls[id].Registered? && (!s.receiving || |s.channel| >= QUEUE_CAPACITY) {
        SettleReturnSafe(s, id);
      } else if id in s.calls && s.calls[id].Registered? {
        assert id !in s.channel;
      }
    case Receive =>
      if s.channel != [] {
        assert s.channel == [s.channel[0]] + s.channel[1..];
      }
    case Wake(id) => WakeSafe(s, id);
    case Expire(id) =>
      if id in s.calls && s.calls[id] == Waiting(true) {
        SettleReturnSafe(s, id);
      }
    case Cancel(id) => SettleSafe(s, id, Cancelled);
    case UnloadExtension(extension) =>
      var ids := Ascending(OpenOf(s.desk, extension));
      CancelAllKeeps(s.desk, ids);
      CancelAllMoves(s.desk, ids);
      DeskStepSafe(s, Unload(s.desk, extension));
    case CloseClient => CloseSafe(s);
    case ServerReply(id, reply) => SettleSafe(s, id, reply);
    case ServerQueuePoll(id) => PollSafe(s, id);
    case ServerInput(event) =>
      if s.desk.polls != [] {
        SettleSafe(s, s.desk.polls[|s.desk.polls| - 1], Input(event));
      }
    case DropServer => CloseSafe(s);
    case DropReceiver =>
  }

  lemma SettleSafe(s: System, id: RequestId, reply: Reply)
    requires Safe(s)
    ensures Safe(s.(desk := Settle(s.desk, id, reply)))
  {
    SettleKeeps(s.desk, id, reply);
    SettleMoves(s.desk, id, reply);
    DeskStepSafe(s, Settle(s.desk, id, reply));
  }

  lemma CloseSafe(s: System)
    requires Safe(s)
    ensures Safe(s.(desk := Close(s.desk)))
  {
    CloseKeeps(s.desk);
    CloseMoves(s.desk);
    DeskStepSafe(s, Close(s.desk));
  }

  lemma PollSafe(s: System, id: RequestId)
    requires Safe(s)
    ensures Safe(s.(desk := QueuePoll(s.desk, id)))
  {
    DeskStepSafe(s, QueuePoll(s.desk, id));
  }

  lemma SettleReturnSafe(s: System, id: RequestId)
    requires Safe(s) && id in s.calls && !s.calls[id].Returned?
    ensures forall error :: Safe(Return(s.(desk := Settle(s.desk, id, Cancelled)), id, Failed(error)))
    ensures s.calls[id].deadline ==> Safe(Return(s.(desk := Settle(s.desk, id, Cancelled)), id, Replied(Cancelled)))
  {
    hide Settle, Ids, Return;
    SettleSafe(s, id, Cancelled);
    SettledIds(s.desk, id, Cancelled);
    var t := s.(desk := Settle(s.desk, id, Cancelled));
    forall error ensures Safe(Return(t, id, Failed(error))) {
      ReturnSafe(t, id, Failed(error));
    }
    if s.calls[id].deadline {
      ReturnSafe(t, id, Replied(Cancelled));
    }
  }

  lemma WakeSafe(s: System, id: RequestId)
    requires Safe(s)
    ensures Safe(Next(s, Wake(id)))
  {
    if id in s.calls && s.calls[id].Waiting? && ReplyTo(s.desk.settled, id).Some? {
      ReturnSafe(s, id, Replied(ReplyTo(s.desk.settled, id).value));
    }
  }

  lemma BeginSafe(s: System, extension: ExtensionId, operation: Operation, deadline: bool)
    requires Safe(s)
    ensures Safe(Next(s, Begin(extension, operation, deadline)))
  {
    hide Sound, Ids, Register;
    var (desk, error) := Register(s.desk, extension, operation);
    RegisterKeeps(s.desk, extension, operation);
    RegisterMoves(s.desk, extension, operation);
    PrefixKeepsIds(s.desk.settled, desk.settled);
    if error.None? {
      assert s.desk.next !in s.calls;
    }
  }

  /** Every interleaving of calls and races stays safe: each request is settled at most
      once, callers are told what their request was settled with, and a closed broker
      leaves nobody waiting. */
  lemma {:induction false} RunSafe(s: System, events: seq<Event>)
    requires Safe(s)
    ensures Safe(Run(s, events))
    decreases |events|
  {
    if events != [] {
      NextSafe(s, events[0]);
      RunSafe(Next(s, events[0]), events[1..]);
    }
  }

  lemma NextExtendsLog(s: System, e: Event)
    requires Safe(s)
    ensures s.desk.settled <= Next(s, e).desk.settled
    ensures s.desk.closed ==> Next(s, e).desk.closed
    ensures s.desk.next <= Next(s, e).desk.next
  {
    hide Sound, Register;
    match e
    case Begin(extension, operation, deadline) =>
      RegisterMoves(s.desk, extension, operation);
      var (desk, error) := Register(s.desk, extension, operation);
      assert error.None? ==> Next(s, e).desk == desk;
    case UnloadExtension(extension) => CancelAllMoves(s.desk, Ascending(OpenOf(s.desk, extension)));
    case CloseClient => CloseMoves(s.desk);
    case DropServer => CloseMoves(s.desk);
    case _ =>
  }

  /** No dialog of the extension is open but `id`. */
  ghost predicate OnlyDialog(d: Desk, extension: ExtensionId, id: RequestId) {
    forall k | k in d.open && d.open[k] == Ticket(extension, Dialog) :: k == id
  }

  lemma NextOnlyDialog(s: System, e: Event, extension: ExtensionId, id: RequestId)
    requires Safe(s) && OnlyDialog(s.desk, extension, id)
    requires !(e.Begin? && e.extension == extension && e.operation == Dialog)
    ensures OnlyDialog(Next(s, e).desk, extension, id)
  {
    hide Sound, Register;
    match e
    case Begin(other, operation, deadline) =>
      RegisterMoves(s.desk, other, operation);
      var (desk, error) := Register(s.desk, other, operation);
      assert error.None? ==> Next(s, e).desk == desk;
      assert Ticket(other, operation) != Ticket(extension, Dialog);
    case UnloadExtension(other) => CancelAllMoves(s.desk, Ascending(OpenOf(s.desk, other)));
    case CloseClient => CloseMoves(s.desk);
    case DropServer => CloseMoves(s.desk);
    case _ =>
  }

  lemma {:induction false} RunOnlyDialog(s: System, events: seq<Event>, extension: ExtensionId, id: RequestId)
    requires Safe(s) && OnlyDialog(s.desk, extension, id)
    requires forall e | e in events :: !(e.Begin? && e.extension == extension && e.operation == Dialog)
    ensures OnlyDialog(Run(s, events).desk, extension, id)
    decreases |events|
  {
    if events != [] {
      assert events[0] in events;
      NextSafe(s, events[0]);
      NextOnlyDialog(s, events[0], extension, id);
      RunOnlyDialog(Next(s, events[0]), events[1..], extension, id);
    }
  }

  /** While a dialog is open the extension's next one is refused; once it is settled, in
      whatever way, the next one is accepted unless the broker has been closed. */
  lemma NextDialogIff(s: System, events: seq<Event>, extension: ExtensionId, id: RequestId, deadline: bool)
    requires Safe(s) && id in s.desk.open && s.desk.open[id] == Ticket(extension, Dialog)
    requires forall e | e in events :: !(e.Begin? && e.extension == extension && e.operation == Dialog)
    ensures var t := Run(s, events);
            var u := Next(t, Begin(extension, Dialog, deadline));
            if t.desk.closed || id in t.desk.open then u == t
            else t.desk.next in u.desk.open && u.desk.open[t.desk.next] == Ticket(extension, Dialog)
  {
    assert OnlyDialog(s.desk, extension, id);
    RunSafe(s, events);
    RunOnlyDialog(s, events, extension, id);
    var t := Run(s, events);
    RunKeepsTicket(s, events, id);
    RegisterRefusesIff(t.desk, extension, Dialog);
    RegisterMoves(t.desk, extension, Dialog);
    if Register(t.desk, extension, Dialog).1 == None {
      RegisterOpens(t.desk, extension, Dialog);
    }
  }

  lemma OpenIsIssued(d: Desk, id: RequestId)
    requires Sound(d) && id in d.open
    ensures id < d.next
  {
  }

  lemma NextKeepsTicket(s: System, e: Event, id: RequestId)
    requires Safe(s) && id in s.desk.open && id in Next(s, e).desk.open
    ensures Next(s, e).desk.open[id] == s.desk.open[id]
  {
    hide Sound, Register;
    OpenIsIssued(s.desk, id);
    match e
    case Begin(extension, operation, deadline) =>
      RegisterMoves(s.desk, extension, operation);
      var (desk, error) := Register(s.desk, extension, operation);
      assert error.None? ==> Next(s, e).desk == desk;
    case UnloadExtension(extension) => CancelAllMoves(s.desk, Ascending(OpenOf(s.desk, extension)));
    case CloseClient => CloseMoves(s.desk);
    case DropServer => CloseMoves(s.desk);
    case _ =>
  }

  /** A request that is still open was open all along, as what it was opened. */
  lemma {:induction false} RunKeepsTicket(s: System, events: seq<Event>, id: RequestId)
    requires Safe(s) && id in s.desk.open
    ensures id in Run(s, events).desk.open ==> Run(s, events).desk.open[id] == s.desk.open[id]
    decreases |events|
  {
    hide Next, Sound, ReplyTo;
    if events != [] {
      var t := Next(s, events[0]);
      OpenIsIssued(s.desk, id);
      NextSafe(s, events[0]);
      if id in t.desk.open {
        NextKeepsTicket(s, events[0], id);
        RunKeepsTicket(t, events[1..], id);
      } else {
        NextExtendsLog(s, events[0]);
        var x := SettledAs(t, id);
        SettlementIsFinal(t, events[1..], x, Cancelled);
      }
    }
  }

  /** An issued request that is not open has its settlement on record. */
  lemma SettledAs(s: System, id: RequestId) returns (x: Settlement)
    requires Safe(s) && id < s.desk.next && id !in s.desk.open
    ensures x in s.desk.settled && x.request == id
  {
    assert id in Ids(s.desk.settled);
    var i :| 0 <= i < |s.desk.settled| && Ids(s.desk.settled)[i] == id;
    x := s.desk.settled[i];
  }

  /** A send is accepted exactly while the receiver is there and fewer than 64 envelopes wait;
      otherwise the request is settled and the call fails. */
  lemma SendIff(s: System, id: RequestId)
    requires Safe(s) && id in s.calls && s.calls[id].Registered?
    ensures var t := Next(s, Send(id));
            if s.receiving && |s.channel| < 64 then
              t == s.(channel := s.channel + [id], calls := s.calls[id := Waiting(s.calls[id].deadline)])
            else
              && t.channel == s.channel && id !in t.desk.open && id in Ids(t.desk.settled)
              && t.calls[id] == Returned(s.calls[id].deadline, Failed(if s.receiving then QueueFull else Closed))
  {
    SettledIds(s.desk, id, Cancelled);
  }

  /** A settlement is final: whatever happens later, it stays in the log, and any later
      reply to the request is refused and changes nothing. */
  lemma {:induction false} SettlementIsFinal(s: System, events: seq<Event>, x: Settlement, reply: Reply)
    requires Safe(s) && x in s.desk.settled
    ensures var t := Run(s, events);
            && x in t.desk.settled && x.request !in t.desk.open
            && ReplyTo(t.desk.settled, x.request) == Some(x.reply)
            && Next(t, ServerReply(x.request, reply)) == t
    decreases |events|
  {
    if events == [] {
      LoggedNotOpen(s.desk, x);
      LoggedReply(s.desk.settled, x);
    } else {
      NextSafe(s, events[0]);
      NextExtendsLog(s, events[0]);
      SettlementIsFinal(Next(s, events[0]), events[1..], x, reply);
    }
  }

  lemma LoggedNotOpen(d: Desk, x: Settlement)
    requires Sound(d) && x in d.settled
    ensures x.request !in d.open
  {
    var i :| 0 <= i < |d.settled| && d.settled[i] == x;
    assert Ids(d.settled)[i] == x.request;
  }

  lemma {:induction false} LoggedReply(settled: seq<Settlement>, x: Settlement)
    requires Distinct(Ids(settled)) && x in settled
    ensures ReplyTo(settled, x.request) == Some(x.reply)
  {
    var last := |settled| - 1;
    var i :| 0 <= i < |settled| && settled[i] == x;
    assert Ids(settled)[i] == x.request;
    if i != last {
      assert Ids(settled)[last] != Ids(settled)[i];
      assert forall j | 0 <= j < last :: Ids(settled[..last])[j] == Ids(settled)[j];
      assert settled[..last][i] == x;
      LoggedReply(settled[..last], x);
    }
  }

  /** Once the broker is closed every waiting call can return, with the reply on record,
      and nothing can reopen it. */
  lemma ClosedStrandsNobody(s: System, events: seq<Event>, id: RequestId)
    requires Safe(s) && s.desk.closed
    requires id in Run(s, events).calls && Run(s, events).calls[id].Waiting?
    ensures var t := Run(s, events);
            && t.desk.closed && ReplyTo(t.desk.settled, id).Some?
            && Next(t, Wake(id)).calls[id].Returned?
            && Next(t, Wake(id)).calls[id].outcome == Replied(ReplyTo(t.desk.settled, id).value)
  {
    RunSafe(s, events);
    RunStaysClosed(s, events);
  }

  lemma {:induction false} RunStaysClosed(s: System, events: seq<Event>)
    requires Safe(s) && s.desk.closed
    ensures Run(s, events).desk.closed
    decreases |events|
  {
    if events != [] {
      NextSafe(s, events[0]);
      NextExtendsLog(s, events[0]);
      RunStaysClosed(Next(s, events[0]), events[1..]);
    }
  }

  lemma ReachableSafe(events: seq<Event>)
    ensures Safe(Run(Start(), events))
  {
    InitialSound();
    RunSafe(Start(), events);
  }

  /** A call whose deadline passes is told what its request was settled with exactly when the
      request is still open, or was cancelled already. */
  lemma ExpiryIsTruthfulIff(s: System, id: RequestId)
    requires Safe(s) && id in s.calls && s.calls[id] == Waiting(true)
    ensures var t := Next(s, Expire(id));
            && t.calls[id] == Returned(true, Replied(Cancelled))
            && ReplyTo(t.desk.settled, id).Some?
            && (ReplyTo(t.desk.settled, id) == Some(Cancelled)
                <==> id in s.desk.open || ReplyTo(s.desk.settled, id) == Some(Cancelled))
  {
    var t := Next(s, Expire(id));
    if id in s.desk.open {
      assert t.desk.settled == s.desk.settled + [Settlement(id, Cancelled)];
    } else {
      assert id in Ids(s.desk.settled);
    }
  }

  /** The exception in `Safe` is real: a deadline that passes just as the server answers
      makes the call return Cancelled although the answer was accepted. */
  lemma DeadlineCanHideAnAcceptedReply(extension: ExtensionId, text: string)
    ensures var events := [Begin(extension, Plain, true), Send(0), Receive, ServerReply(0, Answer(text)), Expire(0)];
            var t := Run(Start(), events);
            t.desk.settled == [Settlement(0, Answer(text))] && 0 in t.calls && t.calls[0] == Returned(true, Replied(Cancelled))
  {
    var s1 := Next(Start(), Begin(extension, Plain, true));
    var s2 := Next(s1, Send(0));
    var s3 := Next(s2, Receive);
    var s4 := Next(s3, ServerReply(0, Answer(text)));
    assert s4.desk.settled == [Settlement(0, Answer(text))];
    var s5 := Next(s4, Expire(0));
    assert Run(s4, [Expire(0)]) == Run(s5, []);
    assert Run(s2, [Receive, ServerReply(0, Answer(text)), Expire(0)]) == Run(s4, [Expire(0)]) by {
      assert [Receive, ServerReply(0, Answer(text)), Expire(0)][1..] == [ServerReply(0, Answer(text)), Expire(0)];
      assert [ServerReply(0, Answer(text)), Expire(0)][1..] == [Expire(0)];
    }
    var tail := [Send(0), Receive, ServerReply(0, Answer(text)), Expire(0)];
    assert tail[1..] == [Receive, ServerReply(0, Answer(text)), Expire(0)];
    assert ([Begin(extension, Plain, true)] + tail)[1..] == tail;
    assert [Begin(extension, Plain, true), Send(0), Receive, ServerReply(0, Answer(text)), Expire(0)]
        == [Begin(extension, Plain, true)] + tail;
  }
}
