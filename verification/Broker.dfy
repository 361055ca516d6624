/** The UI request broker as implemented: five indexes over the pending requests, updated in
    place under one lock.  Each method is one critical section, proved to do to the desk of
    open requests exactly what `BrokerDesk` says. */
module Broker {
  import opened Basics
  import opened Seqs
  import opened BrokerDesk

  datatype Pending = Pending(extension: ExtensionId, modal: bool)

  /** `s` without any occurrence of `x`. */
  function Retain(s: seq<RequestId>, x: RequestId): seq<RequestId> {
    if s == [] then []
    else if s[0] == x then Retain(s[1..], x)
    else [s[0]] + Retain(s[1..], x)
  }

  lemma {:induction false} RetainDistinct(s: seq<RequestId>, x: RequestId)
    requires Distinct(s)
    ensures Retain(s, x) == Without(s, x)
  {
    if s != [] {
      RetainDistinct(s[1..], x);
      if s[0] == x {
        WithoutAbsent(s[1..], x);
      }
    }
  }

  // ---- The indexes, over plain values ----

  ghost predicate PendingOf(open: map<RequestId, Ticket>, pending: map<RequestId, Pending>) {
    && pending.Keys == open.Keys
    && forall id | id in open :: pending[id] == Pending(open[id].extension, open[id].operation == Dialog)
  }

  /** `modal` is exactly the extensions with an open dialog. */
  ghost predicate ModalOf(open: map<RequestId, Ticket>, modal: set<ExtensionId>) {
    && (forall e | e in modal :: exists id | id in open :: open[id] == Ticket(e, Dialog))
    && (forall id | id in open && open[id].operation == Dialog :: open[id].extension in modal)
  }

  /** `owned` is exactly the open requests of each extension. */
  ghost predicate OwnedOf(open: map<RequestId, Ticket>, owned: map<ExtensionId, set<RequestId>>) {
    && (forall e, id | e in owned && id in owned[e] :: id in open && open[id].extension == e)
    && (forall id | id in open :: open[id].extension in owned && id in owned[open[id].extension])
  }

  /** `coalesced` is exactly the open requests that have a key. */
  ghost predicate CoalescedOf(open: map<RequestId, Ticket>, coalesced: map<(ExtensionId, string), RequestId>) {
    && (forall k | k in coalesced :: coalesced[k] in open && open[coalesced[k]] == Ticket(k.0, Keyed(k.1)))
    && (forall id | id in open && open[id].operation.Keyed? ::
          (open[id].extension, open[id].operation.key) in coalesced
          && coalesced[(open[id].extension, open[id].operation.key)] == id)
  }

  /** At most one open dialog per extension; what `ModalOf` needs to survive a removal. */
  ghost predicate OneDialogEach(open: map<RequestId, Ticket>) {
    forall a, b | a in open && b in open && open[a] == open[b] && open[a].operation == Dialog :: a == b
  }

  lemma ModalRemove(open: map<RequestId, Ticket>, modal: set<ExtensionId>, id: RequestId)
    requires ModalOf(open, modal) && OneDialogEach(open) && id in open
    ensures ModalOf(open - {id}, if open[id].operation == Dialog then modal - {open[id].extension} else modal)
  {
    var rest := open - {id};
    var modal' := if open[id].operation == Dialog then modal - {open[id].extension} else modal;
    forall e | e in modal' ensures exists i | i in rest :: rest[i] == Ticket(e, Dialog) {
      var i :| i in open && open[i] == Ticket(e, Dialog);
      assert i in rest && rest[i] == Ticket(e, Dialog);
    }
    forall i | i in rest && rest[i].operation == Dialog ensures rest[i].extension in modal' {
      var t, ti := open[id], open[i];
      assert t == Ticket(t.extension, t.operation) && ti == Ticket(ti.extension, ti.operation);
    }
  }

  lemma ModalInsert(open: map<RequestId, Ticket>, modal: set<ExtensionId>, id: RequestId, t: Ticket)
    requires ModalOf(open, modal) && id !in open
    ensures ModalOf(open[id := t], if t.operation == Dialog then modal + {t.extension} else modal)
  {
    var after := open[id := t];
    var modal' := if t.operation == Dialog then modal + {t.extension} else modal;
    forall e | e in modal' ensures exists i | i in after :: after[i] == Ticket(e, Dialog) {
      if e in modal {
        var i :| i in open && open[i] == Ticket(e, Dialog);
        assert i in after && after[i] == Ticket(e, Dialog);
      } else {
        assert after[id] == Ticket(e, Dialog);
      }
    }
  }

  function Disowned(owned: map<ExtensionId, set<RequestId>>, e: ExtensionId, id: RequestId): map<ExtensionId, set<RequestId>> {
    if e in owned then owned[e := owned[e] - {id}] else owned
  }

  function Owning(owned: map<ExtensionId, set<RequestId>>, e: ExtensionId, id: RequestId): map<ExtensionId, set<RequestId>> {
    owned[e := (if e in owned then owned[e] else {}) + {id}]
  }

  lemma OwnedRemove(open: map<RequestId, Ticket>, owned: map<ExtensionId, set<RequestId>>, id: RequestId)
    requires OwnedOf(open, owned) && id in open
    ensures OwnedOf(open - {id}, Disowned(owned, open[id].extension, id))
  {
  }

  lemma OwnedInsert(open: map<RequestId, Ticket>, owned: map<ExtensionId, set<RequestId>>, id: RequestId, t: Ticket)
    requires OwnedOf(open, owned) && id !in open
    ensures OwnedOf(open[id := t], Owning(owned, t.extension, id))
  {
  }

  function Uncoalesced(coalesced: map<(ExtensionId, string), RequestId>, id: RequestId): map<(ExtensionId, string), RequestId> {
    map k | k in coalesced && coalesced[k] != id :: coalesced[k]
  }

  lemma CoalescedRemove(open: map<RequestId, Ticket>, coalesced: map<(ExtensionId, string), RequestId>, id: RequestId)
    requires CoalescedOf(open, coalesced) && id in open
    ensures CoalescedOf(open - {id}, Uncoalesced(coalesced, id))
  {
  }

  /** Registering first points the key at the new request and only then cancels the one it
      replaces; that cancellation leaves the new entry alone. */
  lemma CoalescedReplace(open: map<RequestId, Ticket>, coalesced: map<(ExtensionId, string), RequestId>,
                         id: RequestId, t: Ticket)
    requires CoalescedOf(open, coalesced) && id !in open && t.operation.Keyed?
    ensures var key := (t.extension, t.operation.key);
            && (key !in coalesced ==> CoalescedOf(open[id := t], coalesced[key := id]))
            && (key in coalesced ==>
                  CoalescedOf((open - {coalesced[key]})[id := t], Uncoalesced(coalesced[key := id], coalesced[key])))
  {
  }

  lemma CoalescedSkip(open: map<RequestId, Ticket>, coalesced: map<(ExtensionId, string), RequestId>, id: RequestId, t: Ticket)
    requires CoalescedOf(open, coalesced) && id !in open && !t.operation.Keyed?
    ensures CoalescedOf(open[id := t], coalesced)
  {
  }

  /** The key index finds exactly the request that a new one with this key replaces. */
  lemma CoalescedFinds(d: Desk, coalesced: map<(ExtensionId, string), RequestId>, e: ExtensionId, key: string)
    requires CoalescedOf(d.open, coalesced)
    ensures OpenWith(d, Ticket(e, Keyed(key))) == if (e, key) in coalesced then {coalesced[(e, key)]} else {}
  {
  }

  lemma ModalFinds(d: Desk, modal: set<ExtensionId>, e: ExtensionId)
    requires ModalOf(d.open, modal)
    ensures e in modal <==> HasDialog(d, e)
  {
    if e in modal {
      var id :| id in d.open && d.open[id] == Ticket(e, Dialog);
    }
  }

  lemma OwnedFinds(d: Desk, owned: map<ExtensionId, set<RequestId>>, e: ExtensionId)
    requires OwnedOf(d.open, owned)
    ensures OpenOf(d, e) == if e in owned then owned[e] else {}
  {
  }

  class UiBroker {
    var next: RequestId
    var generation: nat
    var pending: map<RequestId, Pending>
    var modal: set<ExtensionId>
    var owned: map<ExtensionId, set<RequestId>>
    var coalesced: map<(ExtensionId, string), RequestId>
    var inputPolls: seq<RequestId>
    var closed: bool
    /** What was sent on the reply channels, in order. */
    var replies: seq<Settlement>
    ghost var open: map<RequestId, Ticket>

    ghost function View(): Desk
      reads this
    {
      Desk(next, open, inputPolls, closed, replies)
    }

    /** The indexes other than the key index agree with the open requests. */
    ghost predicate Indexed()
      reads this
    {
      && PendingOf(open, pending) && ModalOf(open, modal) && OwnedOf(open, owned)
      && OneDialogEach(open) && Distinct(inputPolls)
    }

    ghost predicate Linked()
      reads this
    {
      Indexed() && CoalescedOf(open, coalesced)
    }

    ghost predicate Valid()
      reads this
    {
      Linked() && Sound(View())
    }

    constructor ()
      ensures Valid() && View() == Initial()
    {
      next, generation, pending, modal, owned, coalesced := 0, 0, map[], {}, map[], map[];
      inputPolls, closed, replies, open := [], false, [], map[];
      new;
      InitialSound();
    }

    /** Settles one request and forgets it in every index. */
    method CompleteLocked(id: RequestId, reply: Reply) returns (completed: bool)
      requires Indexed()
      modifies this
      ensures Indexed() && generation == old(generation)
      ensures completed <==> id in old(open)
      ensures coalesced == if completed then Uncoalesced(old(coalesced), id) else old(coalesced)
      ensures old(Linked()) ==> Linked()
      ensures View() == Settle(old(View()), id, reply)
    {
      hide PendingOf, ModalOf, OwnedOf, CoalescedOf, OneDialogEach, Distinct, Without, Retain;
      PendingAt(open, pending, id);
      if id !in pending {
        return false;
      }
      var entry := pending[id];
      RemoveEverywhere(open, pending, modal, owned, coalesced, id);
      RetainDistinct(inputPolls, id);
      WithoutDistinct(inputPolls, id);
      pending := pending - {id};
      if entry.modal {
        modal := modal - {entry.extension};
      }
      if entry.extension in owned {
        owned := owned[entry.extension := owned[entry.extension] - {id}];
      }
      coalesced := Uncoalesced(coalesced, id);
      inputPolls := Retain(inputPolls, id);
      replies := replies + [Settlement(id, reply)];
      open := open - {id};
      completed := true;
    }

    /** The first critical section of a call: admission, replacement, bookkeeping. */
    method Register(extension: ExtensionId, operation: Operation) returns (r: Result<(RequestId, nat), BrokerError>)
      requires Valid()
      modifies this
      ensures Valid() && generation == old(generation)
      ensures View() == BrokerDesk.Register(old(View()), extension, operation).0
      ensures r == match BrokerDesk.Register(old(View()), extension, operation).1
                   case None => Ok((old(next), generation))
                   case Some(error) => Err(error)
    {
      hide Indexed, CoalescedOf, Sound, Settle, CancelAll, HasDialog, OpenWith;
      RegisterKeeps(View(), extension, operation);
      NextIsNew(View());
      CancelAllMeaning(View(), Ascending(OpenWith(View(), Ticket(extension, operation))));
      FindDialog(extension);
      if closed {
        return Err(Closed);
      }
      var isModal := operation == Dialog;
      if isModal && extension in modal {
        return Err(Busy);
      }
      ghost var t := Ticket(extension, operation);
      var request := next;
      if operation.Keyed? {
        Replace(extension, operation.key, request);
      } else {
        CoalescedSkip(open, coalesced, request, t);
      }
      Book(request, extension, operation);
      r := Ok((request, generation));
    }

    ghost method FindDialog(extension: ExtensionId)
      requires Indexed()
      ensures extension in modal <==> HasDialog(View(), extension)
    {
      ModalFinds(View(), modal, extension);
    }

    /** Enters an admitted request in every index. */
    method Book(request: RequestId, extension: ExtensionId, operation: Operation)
      requires Indexed() && request !in open
      requires CoalescedOf(open[request := Ticket(extension, operation)], coalesced)
      requires operation == Dialog ==> extension !in modal
      modifies this
      ensures Linked() && generation == old(generation)
      ensures View() == old(View()).(next := old(next) + 1, open := old(open)[request := Ticket(extension, operation)])
    {
      hide PendingOf, ModalOf, OwnedOf, CoalescedOf, OneDialogEach, Distinct;
      ghost var t := Ticket(extension, operation);
      PendingInsert(open, pending, request, t);
      ModalInsert(open, modal, request, t);
      OwnedInsert(open, owned, request, t);
      OneDialogInsert(View(), modal, request, t);
      var isModal := operation == Dialog;
      next := next + 1;
      if isModal {
        modal := modal + {extension};
      }
      pending := pending[request := Pending(extension, isModal)];
      owned := owned[extension := (if extension in owned then owned[extension] else {}) + {request}];
      open := open[request := t];
    }

    /** Points the key at `request`, then cancels the request it pointed at before. */
    method Replace(extension: ExtensionId, key: string, request: RequestId)
      requires Linked() && request !in open
      modifies this
      ensures Indexed() && generation == old(generation)
      ensures request !in open
      ensures View() == CancelAll(old(View()), Ascending(OpenWith(old(View()), Ticket(extension, Keyed(key)))))
      ensures CoalescedOf(open[request := Ticket(extension, Keyed(key))], coalesced)
    {
      hide PendingOf, ModalOf, OwnedOf, CoalescedOf, OneDialogEach, Distinct, Without, Uncoalesced;
      CoalescedFinds(View(), coalesced, extension, key);
      CoalescedReplace(open, coalesced, request, Ticket(extension, Keyed(key)));
      CoalescedKeyed(open, coalesced, (extension, key));
      var previous := if (extension, key) in coalesced then Some(coalesced[(extension, key)]) else None;
      coalesced := coalesced[(extension, key) := request];
      if previous.Some? {
        CancelOne(View(), previous.value);
        var completed := CompleteLocked(previous.value, Cancelled);
      } else {
        CancelNone(View());
      }
    }

    method Reply(id: RequestId, reply: Reply) returns (accepted: bool)
      requires Valid()
      modifies this
      ensures Valid()
      ensures accepted <==> id in old(open)
      ensures View() == Settle(old(View()), id, reply)
    {
      hide Indexed, Sound, Settle;
      SettleKeeps(View(), id, reply);
      accepted := CompleteLocked(id, reply);
    }

    method Cancel(id: RequestId)
      requires Valid()
      modifies this
      ensures Valid() && View() == Settle(old(View()), id, Cancelled)
    {
      hide Sound, Settle;
      SettleKeeps(View(), id, Cancelled);
      var completed := CompleteLocked(id, Cancelled);
    }

    /** The shared loop of unloading and closing: cancels the given requests in order. */
    method CancelEach(ids: seq<RequestId>)
      requires Linked()
      modifies this
      ensures Linked() && generation == old(generation)
      ensures View() == CancelAll(old(View()), ids)
    {
      for i := 0 to |ids|
        invariant Linked() && generation == old(generation)
        invariant CancelAll(View(), ids[i..]) == CancelAll(old(View()), ids)
      {
        assert ids[i..][1..] == ids[i + 1..];
        var completed := CompleteLocked(ids[i], Cancelled);
      }
    }

    method Unload(extension: ExtensionId)
      requires Valid()
      modifies this
      ensures Valid() && View() == BrokerDesk.Unload(old(View()), extension)
    {
      hide Sound, Settle, CancelAll;
      OwnedFinds(View(), owned, extension);
      var ids := Ascending(if extension in owned then owned[extension] else {});
      CancelAllKeeps(View(), ids);
      CancelEach(ids);
    }

    /** Closing by a client and dropping the server do the same. */
    method Close()
      requires Valid()
      modifies this
      ensures Valid() && View() == BrokerDesk.Close(old(View()))
      ensures closed && open == map[]
    {
      hide Settle, CancelAll;
      CloseKeeps(View());
      closed := true;
      var ids := Ascending(pending.Keys);
      CancelEach(ids);
    }

    method QueueInputPoll(id: RequestId) returns (queued: bool)
      requires Valid()
      modifies this`inputPolls
      ensures Valid() && View() == QueuePoll(old(View()), id)
      ensures queued <==> id in open && id !in old(inputPolls)
      ensures inputPolls == if queued then old(inputPolls) + [id] else old(inputPolls)
    {
      if id in pending && id !in inputPolls {
        inputPolls := inputPolls + [id];
        queued := true;
      } else {
        queued := false;
      }
    }

    /** Answers the newest poll.  In a valid state the first poll taken is always open, so
        the event is consumed exactly when some poll is queued. */
    method ReplyInput(event: string) returns (consumed: bool)
      requires Valid()
      modifies this
      ensures Valid() && View() == BrokerDesk.ReplyInput(old(View()), event)
      ensures consumed <==> old(inputPolls) != []
    {
      hide Linked, Settle, Sound;
      NewestPollOpen(View());
      if inputPolls != [] {
        SettleKeeps(View(), inputPolls[|inputPolls| - 1], Input(event));
        PopThenSettle(View(), Input(event));
      }
      consumed := SettleNewestPoll(event);
    }

    /** The loop itself, for polls that need not be open. */
    method SettleNewestPoll(event: string) returns (consumed: bool)
      requires Linked()
      modifies this
      ensures Linked()
      ensures !consumed ==> View() == old(View()).(polls := []) && forall id | id in old(inputPolls) :: id !in open
      ensures consumed ==> exists n | 0 <= n < |old(inputPolls)| ::
                && old(inputPolls)[n] in old(open)
                && (forall m | n < m < |old(inputPolls)| :: old(inputPolls)[m] !in old(open))
                && View() == Settle(old(View()).(polls := old(inputPolls)[..n]), old(inputPolls)[n], Input(event))
    {
      hide Settle, PendingOf, ModalOf, OwnedOf, CoalescedOf, OneDialogEach;
      ghost var polls := inputPolls;
      while inputPolls != []
        invariant Linked() && inputPolls == polls[..|inputPolls|] && |inputPolls| <= |polls|
        invariant View() == old(View()).(polls := inputPolls)
        invariant forall m | |inputPolls| <= m < |polls| :: polls[m] !in open
        decreases |inputPolls|
      {
        var request := inputPolls[|inputPolls| - 1];
        inputPolls := inputPolls[..|inputPolls| - 1];
        ghost var n, before := |inputPolls|, View();
        assert request == polls[n] && before == old(View()).(polls := polls[..n]);
        SettleClosed(before, request, Input(event));
        var completed := CompleteLocked(request, Input(event));
        if completed {
          assert View() == Settle(old(View()).(polls := polls[..n]), polls[n], Input(event));
          return true;
        }
      }
      consumed := false;
    }
  }

  lemma SettleClosed(d: Desk, id: RequestId, reply: Reply)
    ensures id !in d.open ==> Settle(d, id, reply) == d
  {
  }

  lemma NewestPollOpen(d: Desk)
    requires Sound(d)
    ensures d.polls != [] ==> d.polls[|d.polls| - 1] in d.open
  {
  }

  /** Taking the newest poll off first makes no difference to settling it. */
  lemma PopThenSettle(d: Desk, reply: Reply)
    requires Sound(d) && d.polls != []
    ensures var last := |d.polls| - 1;
            Settle(d.(polls := d.polls[..last]), d.polls[last], reply) == Settle(d, d.polls[last], reply)
  {
    var last := |d.polls| - 1;
    WithoutAt(d.polls, last);
    assert d.polls[..last] + d.polls[last + 1..] == d.polls[..last];
    WithoutAbsent(d.polls[..last], d.polls[last]);
  }

  lemma NextIsNew(d: Desk)
    requires Sound(d)
    ensures d.next !in d.open
  {
  }

  lemma PendingAt(open: map<RequestId, Ticket>, pending: map<RequestId, Pending>, id: RequestId)
    requires PendingOf(open, pending)
    ensures id in pending <==> id in open
    ensures id in open ==> pending[id] == Pending(open[id].extension, open[id].operation == Dialog)
  {
  }

  lemma PendingRemove(open: map<RequestId, Ticket>, pending: map<RequestId, Pending>, id: RequestId)
    requires PendingOf(open, pending)
    ensures PendingOf(open - {id}, pending - {id})
  {
  }

  lemma OneDialogRemove(open: map<RequestId, Ticket>, id: RequestId)
    requires OneDialogEach(open)
    ensures OneDialogEach(open - {id})
  {
  }

  lemma RemoveEverywhere(open: map<RequestId, Ticket>, pending: map<RequestId, Pending>, modal: set<ExtensionId>,
                         owned: map<ExtensionId, set<RequestId>>, coalesced: map<(ExtensionId, string), RequestId>,
                         id: RequestId)
    requires PendingOf(open, pending) && ModalOf(open, modal) && OwnedOf(open, owned) && OneDialogEach(open)
    requires id in open
    ensures var e, rest := open[id].extension, open - {id};
            && PendingOf(rest, pending - {id}) && OneDialogEach(rest)
            && ModalOf(rest, if open[id].operation == Dialog then modal - {e} else modal)
            && OwnedOf(rest, if e in owned then owned[e := owned[e] - {id}] else owned)
            && (CoalescedOf(open, coalesced) ==> CoalescedOf(rest, Uncoalesced(coalesced, id)))
  {
    hide PendingOf, ModalOf, OwnedOf, CoalescedOf, OneDialogEach;
    PendingRemove(open, pending, id);
    ModalRemove(open, modal, id);
    OwnedRemove(open, owned, id);
    OneDialogRemove(open, id);
    if CoalescedOf(open, coalesced) {
      CoalescedRemove(open, coalesced, id);
    }
  }

  lemma PendingInsert(open: map<RequestId, Ticket>, pending: map<RequestId, Pending>, id: RequestId, t: Ticket)
    requires PendingOf(open, pending)
    ensures PendingOf(open[id := t], pending[id := Pending(t.extension, t.operation == Dialog)])
  {
  }

  lemma OneDialogInsert(d: Desk, modal: set<ExtensionId>, id: RequestId, t: Ticket)
    requires OneDialogEach(d.open) && ModalOf(d.open, modal) && id !in d.open
    requires t.operation == Dialog ==> t.extension !in modal
    ensures OneDialogEach(d.open[id := t])
  {
  }

  lemma CoalescedKeyed(open: map<RequestId, Ticket>, coalesced: map<(ExtensionId, string), RequestId>, k: (ExtensionId, string))
    requires CoalescedOf(open, coalesced)
    ensures k in coalesced ==> coalesced[k] in open && open[coalesced[k]].operation.Keyed?
  {
  }
}
