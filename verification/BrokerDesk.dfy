/** The UI request broker as it appears from outside: a desk of open requests, the polls
    among them, and the log of settled ones.  The broker's five indexes are all derived
    from the open requests. */
module BrokerDesk {
  import opened Basics
  import opened Seqs

  type ExtensionId = string
  type RequestId = nat

  /** Of an operation only two things matter here: whether it is a dialog, and its coalesce
      key.  Dialogs have no key. */
  datatype Operation = Dialog | Keyed(key: string) | Plain
  datatype Reply = Cancelled | Input(event: string) | Answer(text: string)
  datatype BrokerError = Closed | QueueFull | Busy

  datatype Ticket = Ticket(extension: ExtensionId, operation: Operation)
  datatype Settlement = Settlement(request: RequestId, reply: Reply)

  datatype Desk = Desk(
    next: RequestId,
    open: map<RequestId, Ticket>,
    polls: seq<RequestId>,
    closed: bool,
    settled: seq<Settlement>)

  function Initial(): Desk {
    Desk(0, map[], [], false, [])
  }

  // ---- Operations ----

  function Settle(d: Desk, id: RequestId, reply: Reply): Desk {
    if id !in d.open then d
    else d.(open := d.open - {id}, polls := Without(d.polls, id), settled := d.settled + [Settlement(id, reply)])
  }

  function CancelAll(d: Desk, ids: seq<RequestId>): Desk
    decreases |ids|
  {
    if ids == [] then d else CancelAll(Settle(d, ids[0], Cancelled), ids[1..])
  }

  predicate HasDialog(d: Desk, extension: ExtensionId) {
    exists id | id in d.open :: d.open[id] == Ticket(extension, Dialog)
  }

  function OpenWith(d: Desk, t: Ticket): set<RequestId> {
    set id | id in d.open && d.open[id] == t
  }

  function OpenOf(d: Desk, extension: ExtensionId): set<RequestId> {
    set id | id in d.open && d.open[id].extension == extension
  }

  /** Opening a request cancels the open one with the same extension and key, if any. */
  function Register(d: Desk, extension: ExtensionId, operation: Operation): (Desk, Option<BrokerError>) {
    if d.closed then (d, Some(Closed))
    else if operation == Dialog && HasDialog(d, extension) then (d, Some(Busy))
    else
      var t := Ticket(extension, operation);
      var cleared := if operation.Keyed? then CancelAll(d, Ascending(OpenWith(d, t))) else d;
      (cleared.(next := d.next + 1, open := cleared.open[d.next := t]), None)
  }

  /** A closed broker refuses everything, an open one only a second dialog of an extension. */
  lemma RegisterRefusesIff(d: Desk, extension: ExtensionId, operation: Operation)
    ensures var error := Register(d, extension, operation).1;
            && (error == Some(Closed) <==> d.closed)
            && (error == Some(Busy) <==>
                  !d.closed && operation == Dialog
                  && exists id | id in d.open :: d.open[id].extension == extension && d.open[id].operation == Dialog)
            && (error == None || error == Some(Closed) || error == Some(Busy))
  {
    if exists id | id in d.open :: d.open[id].extension == extension && d.open[id].operation == Dialog {
      var id :| id in d.open && d.open[id].extension == extension && d.open[id].operation == Dialog;
      assert d.open[id] == Ticket(extension, Dialog);
    }
  }

  /** The open requests that a new one takes the place of. */
  function Replaced(d: Desk, t: Ticket): set<RequestId> {
    set id | id in d.open && t.operation.Keyed? && d.open[id] == t
  }

  /** An accepted request is opened under the next id; all others stay, except that the one
      with the same extension and key is cancelled. */
  lemma RegisterOpens(d: Desk, extension: ExtensionId, operation: Operation)
    requires Sound(d) && Register(d, extension, operation).1 == None
    ensures var e := Register(d, extension, operation).0;
            var replaced := Replaced(d, Ticket(extension, operation));
            && e.next == d.next + 1
            && e.open == (d.open - replaced)[d.next := Ticket(extension, operation)]
            && |replaced| <= 1
            && e.settled == d.settled + Cancellations(Ascending(replaced))
  {
    var t := Ticket(extension, operation);
    var replaced := Replaced(d, t);
    AtMostOne(replaced);
    LogsAscending(d, replaced);
    CancelAllMeaning(d, Ascending(replaced));
    if operation.Keyed? {
      assert replaced == OpenWith(d, t);
    } else {
      assert replaced == {};
      CancelNone(d);
    }
  }

  lemma AtMostOne(ids: set<RequestId>)
    requires forall a, b | a in ids && b in ids :: a == b
    ensures |ids| <= 1
  {
    if a :| a in ids {
      assert ids == {a};
    }
  }

  /** The poll queued last is answered first. */
  lemma NewestPollAnswered(d: Desk, id: RequestId, event: string)
    requires id in d.open && id !in d.polls
    ensures var e := ReplyInput(QueuePoll(d, id), event);
            e.settled == d.settled + [Settlement(id, Input(event))] && e.polls == d.polls && e.open == d.open - {id}
  {
    WithoutRest(d.polls, [id], id);
    assert QueuePoll(d, id).polls == d.polls + [id];
  }

  function Unload(d: Desk, extension: ExtensionId): Desk {
    CancelAll(d, Ascending(OpenOf(d, extension)))
  }

  function Close(d: Desk): Desk {
    CancelAll(d.(closed := true), Ascending(d.open.Keys))
  }

  function QueuePoll(d: Desk, id: RequestId): Desk {
    if id in d.open && id !in d.polls then d.(polls := d.polls + [id]) else d
  }

  function ReplyInput(d: Desk, event: string): Desk {
    if d.polls == [] then d else Settle(d, d.polls[|d.polls| - 1], Input(event))
  }

  // ---- What every operation keeps ----

  function Ids(settled: seq<Settlement>): seq<RequestId> {
    seq(|settled|, i requires 0 <= i < |settled| => settled[i].request)
  }

  ghost predicate Sound(d: Desk) {
    // Every request issued so far is either open or settled, never both, and settled once.
    && (forall id: nat :: (id in d.open || id in Ids(d.settled)) <==> id < d.next)
    && (forall id | id in d.open :: id !in Ids(d.settled))
    && Distinct(Ids(d.settled))
    // At most one open dialog per extension, and one open request per extension and key.
    && (forall a, b | a in d.open && b in d.open && a != b ::
          d.open[a] == d.open[b] ==> d.open[a].operation.Plain?)
    // Polls are open requests, each queued once.
    && Distinct(d.polls) && (forall id | id in d.polls :: id in d.open)
    // Nobody is left waiting on a closed broker.
    && (d.closed ==> d.open == map[])
  }

  lemma InitialSound()
    ensures Sound(Initial())
  {
    assert Ids(Initial().settled) == [];
  }

  lemma SettleKeeps(d: Desk, id: RequestId, reply: Reply)
    requires Sound(d)
    ensures Sound(Settle(d, id, reply))
  {
    if id in d.open {
      var t := Settle(d, id, reply);
      WithoutDistinct(d.polls, id);
      assert Ids(t.settled) == Ids(d.settled) + [id];
    }
  }

  /** Cancelling all of some requests settles exactly the open ones among them. */
  lemma {:induction false} CancelAllMeaning(d: Desk, ids: seq<RequestId>)
    ensures CancelAll(d, ids).open == d.open - Elements(ids)
    ensures CancelAll(d, ids).next == d.next && CancelAll(d, ids).closed == d.closed
    ensures d.settled <= CancelAll(d, ids).settled
    decreases |ids|
  {
    if ids == [] {
      assert d.open - {} == d.open;
    } else {
      CancelAllMeaning(Settle(d, ids[0], Cancelled), ids[1..]);
      assert Elements(ids) == {ids[0]} + Elements(ids[1..]);
      if ids[0] !in d.open {
        assert d.open - {ids[0]} == d.open;
      }
      assert (d.open - {ids[0]}) - Elements(ids[1..]) == d.open - Elements(ids);
    }
  }

  function Cancellations(ids: seq<RequestId>): seq<Settlement> {
    seq(|ids|, i requires 0 <= i < |ids| => Settlement(ids[i], Cancelled))
  }

  /** Each of some open requests is told so once, in order, and nobody else is told anything. */
  lemma {:induction false} CancelAllLogs(d: Desk, ids: seq<RequestId>)
    requires Distinct(ids) && forall id | id in ids :: id in d.open
    ensures CancelAll(d, ids).settled == d.settled + Cancellations(ids)
    decreases |ids|
  {
    if ids != [] {
      assert ids == [ids[0]] + ids[1..];
      CancelAllLogs(Settle(d, ids[0], Cancelled), ids[1..]);
      assert Cancellations(ids) == [Settlement(ids[0], Cancelled)] + Cancellations(ids[1..]);
    }
  }

  /** Unloading closes exactly the extension's requests. */
  lemma UnloadOpens(d: Desk, extension: ExtensionId)
    ensures forall id :: id in Unload(d, extension).open <==> id in d.open && d.open[id].extension != extension
  {
    CancelAllMeaning(d, Ascending(OpenOf(d, extension)));
  }

  /** Unloading an extension and closing the broker tell exactly the open requests concerned. */
  lemma UnloadAndCloseLog(d: Desk, extension: ExtensionId)
    ensures Unload(d, extension).settled == d.settled + Cancellations(Ascending(OpenOf(d, extension)))
    ensures Unload(d, extension).open == d.open - OpenOf(d, extension)
    ensures Close(d).settled == d.settled + Cancellations(Ascending(d.open.Keys))
  {
    LogsAscending(d, OpenOf(d, extension));
    LogsAscending(d, d.open.Keys);
    CancelAllMeaning(d, Ascending(OpenOf(d, extension)));
    CloseOrder(d, Ascending(d.open.Keys));
  }

  lemma LogsAscending(d: Desk, ids: set<RequestId>)
    requires forall id | id in ids :: id in d.open
    ensures CancelAll(d, Ascending(ids)).settled == d.settled + Cancellations(Ascending(ids))
  {
    assert forall id | id in Ascending(ids) :: id in Elements(Ascending(ids));
    CancelAllLogs(d, Ascending(ids));
  }

  lemma {:induction false} CancelAllKeeps(d: Desk, ids: seq<RequestId>)
    requires Sound(d)
    ensures Sound(CancelAll(d, ids))
    decreases |ids|
  {
    if ids != [] {
      SettleKeeps(d, ids[0], Cancelled);
      CancelAllKeeps(Settle(d, ids[0], Cancelled), ids[1..]);
    }
  }

  lemma OpeningKeeps(d: Desk, t: Ticket)
    requires Sound(d) && !d.closed
    requires t.operation.Plain? || OpenWith(d, t) == {}
    ensures Sound(d.(next := d.next + 1, open := d.open[d.next := t]))
  {
    forall id | id in d.open && d.open[id] == t ensures t.operation.Plain? {
      assert id in OpenWith(d, t);
    }
  }

  lemma RegisterKeeps(d: Desk, extension: ExtensionId, operation: Operation)
    requires Sound(d)
    ensures Sound(Register(d, extension, operation).0)
  {
    var t := Ticket(extension, operation);
    if Register(d, extension, operation).1 == None {
      if operation.Keyed? {
        var ids := Ascending(OpenWith(d, t));
        CancelAllKeeps(d, ids);
        CancelAllMeaning(d, ids);
        OpeningKeeps(CancelAll(d, ids), t);
      } else {
        OpeningKeeps(d, t);
      }
    }
  }

  lemma CloseKeeps(d: Desk)
    requires Sound(d)
    ensures Sound(Close(d)) && Close(d).closed
  {
    var ids := Ascending(d.open.Keys);
    CancelAllKeeps(d, ids);
    CancelAllMeaning(d, ids);
    CloseOrder(d, ids);
    assert CancelAll(d, ids).open == map[];
  }

  /** Marking the broker closed before or after the cancellations makes no difference. */
  lemma {:induction false} CloseOrder(d: Desk, ids: seq<RequestId>)
    ensures CancelAll(d.(closed := true), ids) == CancelAll(d, ids).(closed := true)
    decreases |ids|
  {
    if ids != [] {
      assert Settle(d.(closed := true), ids[0], Cancelled) == Settle(d, ids[0], Cancelled).(closed := true);
      CloseOrder(Settle(d, ids[0], Cancelled), ids[1..]);
    }
  }

  lemma CancelOne(d: Desk, id: RequestId)
    ensures CancelAll(d, Ascending({id})) == Settle(d, id, Cancelled)
  {
    AscendingUnique(Ascending({id}), [id]);
    assert CancelAll(Settle(d, id, Cancelled), []) == Settle(d, id, Cancelled);
  }

  lemma CancelNone(d: Desk)
    ensures CancelAll(d, Ascending({})) == d
  {
  }
}
