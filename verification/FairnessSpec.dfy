/** The tenant fairness of the hostcall queue as a pure state machine: per-tenant backlog in
    the overflow lane, a ghost list of recently served or refused tenants, and a fallback
    that switches fairness off. */
module FairnessSpec {
  import opened Basics
  import opened Seqs
  import opened GhostList

  datatype Config = Config(
    tenantBudget: nat,
    ghostCapacity: nat,
    minSignalSamples: nat,
    maxSignallessStreak: nat,
    unstableRejectionStreak: nat,
    maxCount: nat)  // the value at which u64 counters saturate
  {
    predicate Sane() {
      tenantBudget >= 1 && unstableRejectionStreak >= 1 && maxSignallessStreak >= 1 && maxCount >= 1
    }
  }

  datatype Fairness = Fairness(
    active: bool,
    reason: Option<FallbackReason>,
    backlog: map<string, nat>,
    history: seq<Event<string>>,
    gen: nat,
    ghostHits: nat,
    rejected: nat,
    samples: nat,
    signallessStreak: nat,
    unstableStreak: nat,
    transitions: nat)

  /** A new state; its ghost list starts empty after whatever came before. */
  function Fresh(history: seq<Event<string>>): Fairness {
    Fairness(true, None, map[], history, 0, 0, 0, 0, 0, 0, 0)
  }

  function Backlog(f: Fairness, tenant: string): nat {
    if tenant in f.backlog then f.backlog[tenant] else 0
  }

  function Ghosts(c: Config, f: Fairness): seq<string> {
    Bounded(c.ghostCapacity, f.history)
  }

  function FallBack(c: Config, f: Fairness, reason: FallbackReason): Fairness {
    if !f.active then f
    else f.(active := false, reason := Some(reason), transitions := Saturating(f.transitions, c.maxCount),
            history := f.history + [Reset], gen := 0, backlog := map[])
  }

  function RecordGhost(c: Config, f: Fairness, tenant: string): Fairness {
    if tenant == "" then f
    else f.(history := (if f.gen == c.maxCount then f.history + [Reset] else f.history) + [Recorded(tenant)],
            gen := if f.gen == c.maxCount then 1 else f.gen + 1)
  }

  function Observe(c: Config, f: Fairness, tenant: Option<string>): Fairness {
    if !f.active then f
    else if tenant.Some? then f.(samples := Saturating(f.samples, c.maxCount), signallessStreak := 0)
    else
      var g := f.(signallessStreak := Saturating(f.signallessStreak, c.maxCount));
      if g.signallessStreak >= c.maxSignallessStreak && g.samples < c.minSignalSamples then
        FallBack(c, g, SignalQualityInsufficient)
      else g
  }

  predicate Granted(c: Config, f: Fairness, tenant: Option<string>) {
    || !f.active || tenant.None?
    || Backlog(f, tenant.value) < c.tenantBudget
    || tenant.value in Ghosts(c, f)
  }

  /** One more refusal in a row; the streak's threshold switches fairness off. */
  function Refused(c: Config, f: Fairness): Fairness {
    var g := f.(unstableStreak := Saturating(f.unstableStreak, c.maxCount));
    if g.unstableStreak >= c.unstableRejectionStreak then FallBack(c, g, FairnessInstability) else g
  }

  function Allow(c: Config, f: Fairness, tenant: Option<string>): Fairness {
    if !f.active || tenant.None? || Backlog(f, tenant.value) < c.tenantBudget then f
    else if tenant.value in Ghosts(c, f) then
      f.(history := f.history + [Removed(tenant.value)], ghostHits := Saturating(f.ghostHits, c.maxCount), unstableStreak := 0)
    else
      Refused(c, RecordGhost(c, f.(rejected := Saturating(f.rejected, c.maxCount)), tenant.value))
  }

  function Enqueued(c: Config, f: Fairness, tenant: Option<string>): Fairness {
    if !f.active then f
    else
      f.(unstableStreak := 0,
         backlog := if tenant.Some? then f.backlog[tenant.value := Backlog(f, tenant.value) + 1] else f.backlog)
  }

  function Dequeued(c: Config, f: Fairness, tenant: Option<string>): Fairness {
    if !f.active || tenant.None? then f
    else
      var left := Backlog(f, tenant.value);
      var backlog := if left <= 1 then f.backlog - {tenant.value} else f.backlog[tenant.value := left - 1];
      RecordGhost(c, f.(backlog := backlog), tenant.value)
  }

  function OverflowRejected(c: Config, f: Fairness, tenant: Option<string>): Fairness {
    if !f.active then f
    else Refused(c, if tenant.Some? then RecordGhost(c, f, tenant.value) else f)
  }

  // ---- How the queue uses it ----

  /** A push that reaches the overflow lane asks for admission and then either enters the
      lane or, when the lane is full, is turned away. */
  function MainPush(c: Config, f: Fairness, tenant: Option<string>, room: bool): Fairness {
    var asked := Allow(c, f, tenant);
    if !Granted(c, f, tenant) then asked
    else if room then Enqueued(c, asked, tenant)
    else OverflowRejected(c, asked, tenant)
  }

  predicate Accepts(c: Config, f: Fairness, tenant: Option<string>, room: bool) {
    Granted(c, f, tenant) && room
  }

  datatype Op =
    | SignalOnly(tenant: Option<string>)
    | Overflow(tenant: Option<string>, room: bool)
    | Dequeue(tenant: Option<string>)
    | ClearAll

  function Step(c: Config, f: Fairness, op: Op): Fairness {
    match op
    case SignalOnly(tenant) => Observe(c, f, tenant)
    case Overflow(tenant, room) => MainPush(c, Observe(c, f, tenant), tenant, room)
    case Dequeue(tenant) => Dequeued(c, f, tenant)
    case ClearAll => Fresh(f.history + [Reset])
  }

  function Run(c: Config, f: Fairness, ops: seq<Op>): Fairness
    decreases |ops|
  {
    if ops == [] then f else Run(c, Step(c, f, ops[0]), ops[1..])
  }

  // ---- What always holds ----

  ghost predicate Steady(c: Config, f: Fairness) {
    && f.gen <= c.maxCount && f.ghostHits <= c.maxCount
    && (forall t | t in f.backlog :: f.backlog[t] > 0)
    && (f.active ==> f.unstableStreak < c.unstableRejectionStreak && f.reason == None)
    && (f.active && f.signallessStreak >= c.maxSignallessStreak ==> f.samples >= c.minSignalSamples)
    && (!f.active ==> f.backlog == map[] && f.reason.Some?)
  }

  lemma RecordSteady(c: Config, f: Fairness, tenant: string)
    requires c.Sane() && Steady(c, f)
    ensures Steady(c, RecordGhost(c, f, tenant)) && RecordGhost(c, f, tenant).active == f.active
  {
  }

  lemma RefusedSteady(c: Config, f: Fairness)
    requires c.Sane() && Steady(c, f)
    ensures Steady(c, Refused(c, f))
  {
  }

  lemma AllowSteady(c: Config, f: Fairness, tenant: Option<string>)
    requires c.Sane() && Steady(c, f)
    ensures Steady(c, Allow(c, f, tenant))
  {
    hide RecordGhost, Refused, Bounded;
    if tenant.Some? {
      RecordSteady(c, f.(rejected := Saturating(f.rejected, c.maxCount)), tenant.value);
      RefusedSteady(c, RecordGhost(c, f.(rejected := Saturating(f.rejected, c.maxCount)), tenant.value));
    }
  }

  /** While fairness is on, the streak of refusals is below its threshold, and a long run
      without tenants is possible only after enough tenants were seen. */
  lemma StepSteady(c: Config, f: Fairness, op: Op)
    requires c.Sane() && Steady(c, f)
    ensures Steady(c, Step(c, f, op))
  {
    match op
    case SignalOnly(tenant) =>
    case Overflow(tenant, room) =>
      hide RecordGhost, Refused, Bounded, Allow, Granted, Observe;
      ObserveSteady(c, f, tenant);
      var g := Observe(c, f, tenant);
      AllowSteady(c, g, tenant);
      var asked := Allow(c, g, tenant);
      if tenant.Some? {
        RecordSteady(c, asked, tenant.value);
      }
      RefusedSteady(c, if tenant.Some? then RecordGhost(c, asked, tenant.value) else asked);
    case Dequeue(tenant) =>
    case ClearAll =>
  }

  lemma ObserveSteady(c: Config, f: Fairness, tenant: Option<string>)
    requires c.Sane() && Steady(c, f)
    ensures Steady(c, Observe(c, f, tenant))
  {
  }

  lemma {:induction false} RunSteady(c: Config, f: Fairness, ops: seq<Op>)
    requires c.Sane() && (Steady(c, f) || f == Fresh(f.history))
    ensures Steady(c, Run(c, f, ops))
    decreases |ops|
  {
    assert f == Fresh(f.history) ==> Steady(c, f);
    if ops != [] {
      StepSteady(c, f, ops[0]);
      RunSteady(c, Step(c, f, ops[0]), ops[1..]);
    }
  }

  /** Once off, fairness stays off and admits everyone for as long as the queue is not
      cleared, and clearing turns it on. */
  lemma {:induction false} OffUntilCleared(c: Config, f: Fairness, ops: seq<Op>)
    requires !f.active && forall op | op in ops :: op != ClearAll
    ensures !Run(c, f, ops).active && forall t :: Granted(c, Run(c, f, ops), t)
    ensures Run(c, f, ops + [ClearAll]).active
    decreases |ops|
  {
    if ops != [] {
      assert (ops + [ClearAll])[1..] == ops[1..] + [ClearAll];
      assert ops[0] in ops && forall op | op in ops[1..] :: op in ops;
      OffUntilCleared(c, Step(c, f, ops[0]), ops[1..]);
    } else {
      assert ops + [ClearAll] == [ClearAll];
      assert Run(c, f, [ClearAll]) == Step(c, f, ClearAll);
    }
  }

  // ---- Refusal, then admission ----

  /** Unless it was forgotten, the tenant is still listed: recorded at or after `since`. */
  ghost predicate Remembered(c: Config, f: Fairness, tenant: string, since: nat) {
    || !f.active || Backlog(f, tenant) < c.tenantBudget
    || LastRecorded(f.history, tenant) >= since
  }

  ghost predicate AsksFor(op: Op, tenant: string) {
    op.Overflow? && op.tenant == Some(tenant)
  }

  lemma RecordSnoc(history: seq<Event<string>>, e: Event<string>, tenant: string)
    ensures LastRecorded(history + [e], tenant)
            == if e == Recorded(tenant) then |history|
               else if e == Reset || e == Removed(tenant) then -1
               else LastRecorded(history, tenant)
  {
    assert (history + [e])[..|history + [e]| - 1] == history;
  }

  lemma RecordRemembers(c: Config, f: Fairness, other: string, tenant: string)
    requires f.gen < c.maxCount
    ensures LastRecorded(RecordGhost(c, f, other).history, tenant) >= LastRecorded(f.history, tenant)
    ensures f.history <= RecordGhost(c, f, other).history && RecordGhost(c, f, other).gen <= f.gen + 1
    ensures other == tenant != "" ==> LastRecorded(RecordGhost(c, f, other).history, tenant) == |f.history|
  {
    RecordSnoc(f.history, Recorded(other), tenant);
  }

  lemma RefusedRemembers(c: Config, f: Fairness, tenant: string, since: nat)
    requires Remembered(c, f, tenant, since)
    ensures Remembered(c, Refused(c, f), tenant, since)
    ensures f.history <= Refused(c, f).history && Refused(c, f).gen <= f.gen
  {
  }

  lemma StepRemembers(c: Config, f: Fairness, op: Op, tenant: string, since: nat)
    requires c.Sane() && Remembered(c, f, tenant, since) && !AsksFor(op, tenant) && f.gen < c.maxCount
    ensures Remembered(c, Step(c, f, op), tenant, since)
    ensures f.history <= Step(c, f, op).history && Step(c, f, op).gen <= f.gen + 1
  {
    hide LastRecorded, Bounded;
    match op
    case SignalOnly(t) =>
    case Overflow(t, room) => PushRemembers(c, Observe(c, f, t), t, room, tenant, since);
    case Dequeue(t) =>
      if f.active && t.Some? {
        var left := Backlog(f, t.value);
        var g := f.(backlog := if left <= 1 then f.backlog - {t.value} else f.backlog[t.value := left - 1]);
        RecordRemembers(c, g, t.value, tenant);
      }
    case ClearAll =>
  }

  lemma PushRemembers(c: Config, f: Fairness, t: Option<string>, room: bool, tenant: string, since: nat)
    requires c.Sane() && Remembered(c, f, tenant, since) && t != Some(tenant) && f.gen < c.maxCount
    ensures Remembered(c, MainPush(c, f, t, room), tenant, since)
    ensures f.history <= MainPush(c, f, t, room).history && MainPush(c, f, t, room).gen <= f.gen + 1
  {
    hide LastRecorded, Bounded, RecordGhost, Refused;
    if f.active {
      if t.Some? {
        RecordRemembers(c, f.(rejected := Saturating(f.rejected, c.maxCount)), t.value, tenant);
        RecordSnoc(f.history, Removed(t.value), tenant);
        RecordSame(c, f.(rejected := Saturating(f.rejected, c.maxCount)), t.value);
      }
      var asked := Allow(c, f, t);
      if Granted(c, f, t) && !room {
        var recorded := if t.Some? then RecordGhost(c, asked, t.value) else asked;
        if t.Some? {
          RecordRemembers(c, asked, t.value, tenant);
          RecordSame(c, asked, t.value);
        }
        RefusedRemembers(c, recorded, tenant, since);
      } else if !Granted(c, f, t) {
        RefusedRemembers(c, RecordGhost(c, f.(rejected := Saturating(f.rejected, c.maxCount)), t.value), tenant, since);
      }
    }
  }

  lemma RecordSame(c: Config, f: Fairness, t: string)
    ensures RecordGhost(c, f, t).active == f.active && RecordGhost(c, f, t).backlog == f.backlog
  {
  }

  /** No operation of the run finds the ghost generations used up, which empties the list. */
  predicate GenerationsLast(c: Config, f: Fairness, ops: seq<Op>)
    decreases |ops|
  {
    ops == [] || (f.gen < c.maxCount && GenerationsLast(c, Step(c, f, ops[0]), ops[1..]))
  }

  lemma {:induction false} ShortRunsLast(c: Config, f: Fairness, ops: seq<Op>)
    requires f.gen + |ops| <= c.maxCount
    ensures GenerationsLast(c, f, ops)
    decreases |ops|
  {
    if ops != [] {
      StepGen(c, f, ops[0]);
      ShortRunsLast(c, Step(c, f, ops[0]), ops[1..]);
    }
  }

  lemma StepGen(c: Config, f: Fairness, op: Op)
    requires f.gen < c.maxCount
    ensures Step(c, f, op).gen <= f.gen + 1
  {
    hide Bounded;
  }

  lemma {:induction false} RunRemembers(c: Config, f: Fairness, ops: seq<Op>, tenant: string, since: nat)
    requires c.Sane() && Remembered(c, f, tenant, since) && GenerationsLast(c, f, ops)
    requires forall op | op in ops :: !AsksFor(op, tenant)
    ensures Remembered(c, Run(c, f, ops), tenant, since) && f.history <= Run(c, f, ops).history
    decreases |ops|
  {
    if ops != [] {
      StepRemembers(c, f, ops[0], tenant, since);
      RunRemembers(c, Step(c, f, ops[0]), ops[1..], tenant, since);
    }
  }

  /** What a remembered tenant can count on: it is let in the next time it asks, whatever
      happens in between, unless by then `ghostCapacity` other tenants were recorded as ghosts,
      or the generations ran out. */
  ghost predicate WillBeAdmitted(c: Config, f: Fairness, tenant: string, ops: seq<Op>) {
    var g := Run(c, f, ops);
    GenerationsLast(c, f, ops) ==>
      && f.history <= g.history
      && (Granted(c, g, Some(tenant)) || |RecordedKeys(g.history[|f.history|..]) - {tenant}| >= c.ghostCapacity)
  }

  lemma RememberedThenAdmitted(c: Config, f: Fairness, tenant: string, ops: seq<Op>)
    requires c.Sane() && f.history != [] && Remembered(c, f, tenant, |f.history| - 1)
    requires forall op | op in ops :: !AsksFor(op, tenant)
    ensures WillBeAdmitted(c, f, tenant, ops)
  {
    hide Granted, Remembered, LastRecorded, Run;
    if GenerationsLast(c, f, ops) {
      RunRemembers(c, f, ops, tenant, |f.history| - 1);
      Crowded(c, Run(c, f, ops), tenant, |f.history|);
    }
  }

  /** A tenant with a name that is turned away, for its backlog or for lack of room, is let in
      the next time it asks. */
  lemma RefusedThenAdmitted(c: Config, f: Fairness, tenant: string, room: bool, ops: seq<Op>)
    requires c.Sane() && tenant != "" && f.active && !Accepts(c, f, Some(tenant), room)
    requires forall op | op in ops :: !AsksFor(op, tenant)
    ensures WillBeAdmitted(c, MainPush(c, f, Some(tenant), room), tenant, ops)
  {
    RefusalRemembered(c, f, tenant, room);
    RememberedThenAdmitted(c, MainPush(c, f, Some(tenant), room), tenant, ops);
  }

  /** So is a tenant with a name whose request has been served. */
  lemma ServedThenAdmitted(c: Config, f: Fairness, tenant: string, ops: seq<Op>)
    requires c.Sane() && tenant != "" && f.active
    requires forall op | op in ops :: !AsksFor(op, tenant)
    ensures WillBeAdmitted(c, Dequeued(c, f, Some(tenant)), tenant, ops)
  {
    var served := Dequeued(c, f, Some(tenant));
    assert LastRecorded(served.history, tenant) == |served.history| - 1;
    RememberedThenAdmitted(c, served, tenant, ops);
  }

  /** Right after it was turned away the tenant is the newest ghost, unless that refusal was
      the one that switched fairness off. */
  lemma RefusalRemembered(c: Config, f: Fairness, tenant: string, room: bool)
    requires c.Sane() && tenant != "" && f.active && !Accepts(c, f, Some(tenant), room)
    ensures var refused := MainPush(c, f, Some(tenant), room);
            refused.history != [] && Remembered(c, refused, tenant, |refused.history| - 1)
  {
    if Granted(c, f, Some(tenant)) {
      var recorded := RecordGhost(c, Allow(c, f, Some(tenant)), tenant);
      assert LastRecorded(recorded.history, tenant) == |recorded.history| - 1;
    } else {
      var recorded := RecordGhost(c, f.(rejected := Saturating(f.rejected, c.maxCount)), tenant);
      assert LastRecorded(recorded.history, tenant) == |recorded.history| - 1;
    }
  }

  /** An accepted request starts the streak of refusals over. */
  lemma AcceptedStartsOver(c: Config, f: Fairness, tenant: Option<string>, ops: seq<Op>)
    requires c.Sane() && Steady(c, f) && f.active && Accepts(c, f, tenant, true)
    requires c.unstableRejectionStreak <= c.maxCount && c.maxSignallessStreak <= c.maxCount
    ensures var g := MainPush(c, f, tenant, true);
            && g.active && Steady(c, g) && g.unstableStreak == 0
            && (AllRefused(c, g, ops) && (forall x | x in Refusals(c, g, ops) :: x.Plain?) ==>
                  (Run(c, g, ops).active <==> |ops| < c.unstableRejectionStreak))
  {
    var g := MainPush(c, f, tenant, true);
    hide Bounded, Refusals, AllRefused, Run;
    if AllRefused(c, g, ops) && forall x | x in Refusals(c, g, ops) :: x.Plain? {
      PlainRefusalsFallBack(c, g, ops);
    }
  }

  /** Requests without a tenant switch fairness off exactly when there are enough of them in a
      row and too few with one were seen before. */
  lemma {:induction false} SignallessRunIff(c: Config, f: Fairness, n: nat)
    requires c.Sane() && Steady(c, f) && f.active && c.maxSignallessStreak <= c.maxCount
    ensures Run(c, f, Silence(n)).active
       <==> n == 0 || f.signallessStreak + n < c.maxSignallessStreak || f.samples >= c.minSignalSamples
    decreases n
  {
    if n > 0 {
      assert Silence(n)[1..] == Silence(n - 1);
      var g := Step(c, f, SignalOnly(None));
      StepSteady(c, f, SignalOnly(None));
      if g.active {
        SignallessRunIff(c, g, n - 1);
      } else {
        OffUntilCleared(c, g, Silence(n - 1));
      }
    }
  }

  function Silence(n: nat): (ops: seq<Op>)
    ensures |ops| == n
  {
    seq(n, i => SignalOnly(None))
  }

  /** A request with a tenant is a sample and ends the silence. */
  lemma SignalIsCounted(c: Config, f: Fairness, tenant: string)
    requires f.active
    ensures var g := Step(c, f, SignalOnly(Some(tenant)));
            && g.active && g.signallessStreak == 0 && g.samples == Saturating(f.samples, c.maxCount)
  {
  }

  /** A ghost listed since position `from - 1` is admitted, or the list filled up after it. */
  lemma Crowded(c: Config, g: Fairness, tenant: string, from: nat)
    requires 0 < from <= |g.history| && Remembered(c, g, tenant, from - 1)
    ensures Granted(c, g, Some(tenant)) || |RecordedKeys(g.history[from..]) - {tenant}| >= c.ghostCapacity
  {
    hide LastRecorded, Bounded;
    if !Granted(c, g, Some(tenant)) {
      var at := LastRecorded(g.history, tenant);
      Retention(c.ghostCapacity, g.history, tenant);
      TailGrows(g.history, from, at + 1);
      SubsetCard(OthersSince(g.history, at, tenant), RecordedKeys(g.history[from..]) - {tenant});
    }
  }

  lemma TailGrows(history: seq<Event<string>>, from: nat, later: nat)
    requires from <= later <= |history|
    ensures RecordedKeys(history[later..]) <= RecordedKeys(history[from..])
  {
    assert history[later..] == history[from..][later - from..];
  }

  /** A ghost is good for one admission: a tenant over its budget that was let in as a ghost is
      refused if it asks again at once, while the other ghosts stay. */
  lemma GhostIsUsedUp(c: Config, f: Fairness, tenant: string)
    requires c.Sane() && f.active && Backlog(f, tenant) >= c.tenantBudget && tenant in Ghosts(c, f)
    ensures var g := MainPush(c, f, Some(tenant), true);
            && !Granted(c, g, Some(tenant))
            && Ghosts(c, g) == Without(Ghosts(c, f), tenant)
  {
    assert (f.history + [Removed(tenant)])[..|f.history|] == f.history;
    BoundedMeaning(c.ghostCapacity, f.history);
    WithoutDistinct(Bounded(c.ghostCapacity, f.history), tenant);
    hide Without;
  }

  /** Switching fairness off and clearing the queue both empty the ghost list. */
  lemma CleanSlate(c: Config, f: Fairness, reason: FallbackReason)
    ensures f.active ==> Ghosts(c, FallBack(c, f, reason)) == []
    ensures Ghosts(c, Step(c, f, ClearAll)) == []
  {
    assert (f.history + [Reset])[..|f.history|] == f.history;
  }

  /** The empty name is never a ghost. */
  lemma {:induction false} NamelessIsNoGhost(c: Config, f: Fairness, ops: seq<Op>)
    requires c.Sane() && Recorded("") !in f.history
    ensures "" !in Ghosts(c, Run(c, f, ops)) && Recorded("") !in Run(c, f, ops).history
    decreases |ops|
  {
    if ops == [] {
      BoundedMeaning(c.ghostCapacity, f.history);
      hide Bounded;
      assert "" in Ghosts(c, f) ==> LastRecorded(f.history, "") >= 0;
    } else {
      StepNameless(c, f, ops[0]);
      NamelessIsNoGhost(c, Step(c, f, ops[0]), ops[1..]);
    }
  }

  ghost predicate Nameless(f: Fairness) {
    Recorded("") !in f.history
  }

  lemma AllowNameless(c: Config, f: Fairness, tenant: Option<string>)
    requires Nameless(f)
    ensures Nameless(Allow(c, f, tenant)) && Nameless(Refused(c, f))
    ensures tenant.Some? ==> Nameless(RecordGhost(c, f, tenant.value))
  {
    hide Bounded, Backlog;
  }

  lemma StepNameless(c: Config, f: Fairness, op: Op)
    requires Recorded("") !in f.history
    ensures Recorded("") !in Step(c, f, op).history
  {
    match op
    case SignalOnly(tenant) =>
    case Overflow(tenant, room) =>
      var g := Observe(c, f, tenant);
      assert Nameless(g);
      AllowNameless(c, g, tenant);
      var asked := Allow(c, g, tenant);
      AllowNameless(c, asked, tenant);
      hide Observe, Allow, Granted, RecordGhost, Refused;
      AllowNameless(c, if tenant.Some? then RecordGhost(c, asked, tenant.value) else asked, tenant);
      assert Nameless(Step(c, f, op));
    case Dequeue(tenant) =>
    case ClearAll =>
  }

  // ---- When refusals switch fairness off ----

  /** What a refused push does to the streak: using up a ghost starts it over, a missing
      tenant may be one too many, and anything else lengthens it. */
  datatype Refusal = GhostHit | SignalLost | Plain

  function RefusalOf(c: Config, f: Fairness, tenant: Option<string>): Refusal {
    if tenant.None? then
      if f.signallessStreak + 1 >= c.maxSignallessStreak && f.samples < c.minSignalSamples then SignalLost else Plain
    else if Backlog(f, tenant.value) >= c.tenantBudget && tenant.value in Ghosts(c, f) then GhostHit
    else Plain
  }

  predicate IsRefused(c: Config, f: Fairness, op: Op) {
    op.Overflow? && !Accepts(c, Observe(c, f, op.tenant), op.tenant, op.room)
  }

  ghost predicate AllRefused(c: Config, f: Fairness, ops: seq<Op>)
    decreases |ops|
  {
    ops == [] || (IsRefused(c, f, ops[0]) && AllRefused(c, Step(c, f, ops[0]), ops[1..]))
  }

  /** What each push of a run does, by the guards at the time it is made. */
  function Refusals(c: Config, f: Fairness, ops: seq<Op>): (refusals: seq<Refusal>)
    requires AllRefused(c, f, ops)
    ensures |refusals| == |ops|
    decreases |ops|
  {
    if ops == [] then []
    else [RefusalOf(c, f, ops[0].tenant)] + Refusals(c, Step(c, f, ops[0]), ops[1..])
  }

  /** The streak after the first `n` refusals, counted from `start`. */
  function Streak(start: nat, refusals: seq<Refusal>, n: nat): nat
    requires n <= |refusals|
  {
    if n == 0 then start
    else if refusals[n - 1].GhostHit? then 1
    else Streak(start, refusals, n - 1) + 1
  }

  /** No refusal loses the signal, and the streak stays below its threshold throughout. */
  ghost predicate StaysOn(c: Config, start: nat, refusals: seq<Refusal>) {
    && SignalLost !in refusals
    && forall n: nat | n <= |refusals| :: Streak(start, refusals, n) < c.unstableRejectionStreak
  }

  lemma RefusalCounts(c: Config, f: Fairness, op: Op)
    requires c.Sane() && Steady(c, f) && f.active && IsRefused(c, f, op)
    requires c.unstableRejectionStreak <= c.maxCount && c.maxSignallessStreak <= c.maxCount
    ensures var g, refusal := Step(c, f, op), RefusalOf(c, f, op.tenant);
            var streak := if refusal.GhostHit? then 1 else f.unstableStreak + 1;
            && (g.active <==> !refusal.SignalLost? && streak < c.unstableRejectionStreak)
            && (g.active ==> g.unstableStreak == streak)
            && (!g.active ==>
                  && g.reason == Some(if refusal.SignalLost? then SignalQualityInsufficient else FairnessInstability)
                  && g.transitions == Saturating(f.transitions, c.maxCount))
  {
    hide Bounded;
  }

  /** The counters of admissions through the ghost list and of refusals for the backlog. */
  lemma AdmissionCounters(c: Config, f: Fairness, tenant: Option<string>, room: bool)
    requires c.Sane() && f.active
    ensures var g, max := MainPush(c, f, tenant, room), c.maxCount;
            && g.ghostHits == (if Granted(c, f, tenant) && tenant.Some? && Backlog(f, tenant.value) >= c.tenantBudget
                               then Saturating(f.ghostHits, max) else f.ghostHits)
            && g.rejected == if Granted(c, f, tenant) then f.rejected else Saturating(f.rejected, max)
  {
    hide Bounded;
  }

  lemma {:induction false} StreakCons(start: nat, first: Refusal, rest: seq<Refusal>, n: nat)
    requires n <= |rest|
    ensures Streak(start, [first] + rest, n + 1) == Streak(if first.GhostHit? then 1 else start + 1, rest, n)
  {
    if n > 0 {
      StreakCons(start, first, rest, n - 1);
    } else {
      assert Streak(start, [first] + rest, 0) == start;
    }
  }

  lemma StaysOnCons(c: Config, start: nat, first: Refusal, rest: seq<Refusal>)
    requires start < c.unstableRejectionStreak
    ensures StaysOn(c, start, [first] + rest)
       <==> first != SignalLost && StaysOn(c, if first.GhostHit? then 1 else start + 1, rest)
  {
    var all, next := [first] + rest, if first.GhostHit? then 1 else start + 1;
    hide Streak;
    forall n: nat | n <= |rest| ensures Streak(start, all, n + 1) == Streak(next, rest, n) {
      StreakCons(start, first, rest, n);
    }
    if first != SignalLost && StaysOn(c, next, rest) {
      forall n: nat | n <= |all| ensures Streak(start, all, n) < c.unstableRejectionStreak {
        if n == 0 {
          StreakStart(start, all);
        } else {
          assert Streak(start, all, n - 1 + 1) == Streak(next, rest, n - 1);
        }
      }
    }
    if StaysOn(c, start, all) {
      assert all[0] == first;
      forall n: nat | n <= |rest| ensures Streak(next, rest, n) < c.unstableRejectionStreak {
        assert Streak(start, all, n + 1) < c.unstableRejectionStreak;
      }
      assert forall x | x in rest :: x in all;
    }
  }

  lemma StreakStart(start: nat, refusals: seq<Refusal>)
    ensures Streak(start, refusals, 0) == start
  {
  }

  /** Refused pushes switch fairness off exactly when one of them loses the signal or the
      streak, which every ghost hit starts over, reaches its threshold. */
  lemma {:induction false} RefusalsFallBackIff(c: Config, f: Fairness, ops: seq<Op>)
    requires c.Sane() && Steady(c, f) && f.active && AllRefused(c, f, ops)
    requires c.unstableRejectionStreak <= c.maxCount && c.maxSignallessStreak <= c.maxCount
    ensures Run(c, f, ops).active <==> StaysOn(c, f.unstableStreak, Refusals(c, f, ops))
    decreases |ops|
  {
    if ops == [] {
      StreakStart(f.unstableStreak, []);
    } else {
      var g, first := Step(c, f, ops[0]), RefusalOf(c, f, ops[0].tenant);
      RefusalCounts(c, f, ops[0]);
      StepSteady(c, f, ops[0]);
      hide Step, RefusalOf, Streak, Steady, StaysOn, IsRefused;
      StaysOnCons(c, f.unstableStreak, first, Refusals(c, g, ops[1..]));
      if g.active {
        RefusalsFallBackIff(c, g, ops[1..]);
      } else {
        RefusalsStayOff(c, g, ops[1..]);
        StaysOnStart(c, if first.GhostHit? then 1 else f.unstableStreak + 1, Refusals(c, g, ops[1..]));
      }
    }
  }

  lemma StaysOnStart(c: Config, start: nat, refusals: seq<Refusal>)
    ensures StaysOn(c, start, refusals) ==> start < c.unstableRejectionStreak
  {
    StreakStart(start, refusals);
    hide Streak;
  }

  lemma {:induction false} RefusalsStayOff(c: Config, f: Fairness, ops: seq<Op>)
    requires !f.active && AllRefused(c, f, ops)
    ensures !Run(c, f, ops).active
    decreases |ops|
  {
    if ops != [] {
      RefusalsStayOff(c, Step(c, f, ops[0]), ops[1..]);
    }
  }

  /** In a row, refusals that use up no ghost and lose no signal switch fairness off exactly
      when there are enough of them. */
  lemma PlainRefusalsFallBack(c: Config, f: Fairness, ops: seq<Op>)
    requires c.Sane() && Steady(c, f) && f.active && AllRefused(c, f, ops)
    requires c.unstableRejectionStreak <= c.maxCount && c.maxSignallessStreak <= c.maxCount
    requires forall x | x in Refusals(c, f, ops) :: x.Plain?
    ensures Run(c, f, ops).active <==> f.unstableStreak + |ops| < c.unstableRejectionStreak
  {
    var refusals := Refusals(c, f, ops);
    RefusalsFallBackIff(c, f, ops);
    forall n: nat | n <= |ops| ensures Streak(f.unstableStreak, refusals, n) == f.unstableStreak + n {
      PlainStreak(f.unstableStreak, refusals, n);
    }
    hide Refusals, Streak, Run, AllRefused, Steady;
    if StaysOn(c, f.unstableStreak, refusals) {
      assert Streak(f.unstableStreak, refusals, |refusals|) < c.unstableRejectionStreak;
    }
  }

  lemma {:induction false} PlainStreak(start: nat, refusals: seq<Refusal>, n: nat)
    requires n <= |refusals| && forall x | x in refusals :: x.Plain?
    ensures Streak(start, refusals, n) == start + n
  {
    if n > 0 {
      PlainStreak(start, refusals, n - 1);
      assert refusals[n - 1] in refusals;
    }
  }

  /** Refusals in general do not: a listed tenant pushing against a full lane is turned away
      any number of times, and each ghost hit starts the streak over. */
  lemma {:induction false} GhostHitsPreventFallback(c: Config, f: Fairness, tenant: string, n: nat)
    requires c.Sane() && c.unstableRejectionStreak >= 2 && c.ghostCapacity >= 1 && f.active
    requires tenant != "" && Backlog(f, tenant) >= c.tenantBudget && tenant in Ghosts(c, f)
    ensures AllRefused(c, f, Pushes(tenant, false, n)) && Run(c, f, Pushes(tenant, false, n)).active
    decreases n
  {
    if n > 0 {
      assert Pushes(tenant, false, n)[1..] == Pushes(tenant, false, n - 1);
      HitAndListedAgain(c, f, tenant);
      GhostHitsPreventFallback(c, Step(c, f, Overflow(Some(tenant), false)), tenant, n - 1);
    }
  }

  function Pushes(tenant: string, room: bool, n: nat): (ops: seq<Op>)
    ensures |ops| == n
  {
    seq(n, i => Overflow(Some(tenant), room))
  }

  /** Such a state is reached from the start: the tenant fills its budget, and the push that
      is then refused lists it. */
  lemma ManyRefusalsLeaveFairnessOn(c: Config, tenant: string, n: nat)
    requires c.Sane() && c.unstableRejectionStreak >= 2 && c.ghostCapacity >= 1 && tenant != ""
    ensures var full := Run(c, Fresh([]), Pushes(tenant, true, c.tenantBudget));
            && AllRefused(c, full, Pushes(tenant, false, n))
            && Run(c, full, Pushes(tenant, false, n)).active
  {
    var full := Run(c, Fresh([]), Pushes(tenant, true, c.tenantBudget));
    FillBudget(c, Fresh([]), tenant, c.tenantBudget);
    if n > 0 {
      assert Pushes(tenant, false, n)[1..] == Pushes(tenant, false, n - 1);
      FirstRefusalLists(c, full, tenant);
      GhostHitsPreventFallback(c, Step(c, full, Overflow(Some(tenant), false)), tenant, n - 1);
    }
  }

  lemma {:induction false} FillBudget(c: Config, f: Fairness, tenant: string, n: nat)
    requires c.Sane() && f.active && f.history == [] && f.unstableStreak == 0
    requires Backlog(f, tenant) + n <= c.tenantBudget
    ensures var g := Run(c, f, Pushes(tenant, true, n));
            && g.active && g.history == [] && g.gen == f.gen && g.unstableStreak == 0
            && Backlog(g, tenant) == Backlog(f, tenant) + n
    decreases n
  {
    if n > 0 {
      assert Pushes(tenant, true, n)[1..] == Pushes(tenant, true, n - 1);
      FillBudget(c, Step(c, f, Overflow(Some(tenant), true)), tenant, n - 1);
    }
  }

  lemma FirstRefusalLists(c: Config, f: Fairness, tenant: string)
    requires c.Sane() && c.unstableRejectionStreak >= 2 && c.ghostCapacity >= 1 && tenant != ""
    requires f.active && f.history == [] && f.gen == 0 && f.unstableStreak == 0
    requires Backlog(f, tenant) >= c.tenantBudget
    ensures IsRefused(c, f, Overflow(Some(tenant), false))
    ensures var g := Step(c, f, Overflow(Some(tenant), false));
            g.active && Backlog(g, tenant) >= c.tenantBudget && tenant in Ghosts(c, g)
  {
    LastStays(c.ghostCapacity, [], tenant);
    hide Bounded;
  }

  lemma HitAndListedAgain(c: Config, f: Fairness, tenant: string)
    requires c.Sane() && c.unstableRejectionStreak >= 2 && c.ghostCapacity >= 1 && f.active
    requires tenant != "" && Backlog(f, tenant) >= c.tenantBudget && tenant in Ghosts(c, f)
    ensures IsRefused(c, f, Overflow(Some(tenant), false))
    ensures var g := Step(c, f, Overflow(Some(tenant), false));
            g.active && Backlog(g, tenant) >= c.tenantBudget && tenant in Ghosts(c, g)
  {
    hide Bounded;
    var asked := Allow(c, Observe(c, f, Some(tenant)), Some(tenant));
    var h := if asked.gen == c.maxCount then asked.history + [Reset] else asked.history;
    LastStays(c.ghostCapacity, h, tenant);
  }

  lemma LastStays(capacity: nat, history: seq<Event<string>>, tenant: string)
    requires capacity >= 1
    ensures tenant in Bounded(capacity, history + [Recorded(tenant)])
  {
    assert (history + [Recorded(tenant)])[..|history|] == history;
    LatestKeepsLast(Without(Bounded(capacity, history), tenant), tenant, capacity);
  }
}
