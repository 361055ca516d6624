/** The hostcall queue: a bounded fast lane that spills into a bounded overflow lane, with
    tenant fairness on the overflow lane and epoch-based retirement of popped requests.
    It is proved to be one bounded FIFO queue whatever the fairness and the epochs do. */
module HostcallQueue {
  import opened Basics
  import opened Seqs
  import opened GhostList
  import opened FairnessSpec

  datatype Request = Request(tenant: Option<string>, payload: nat)
  datatype Mode = Ebr | SafeFallback
  datatype Retired = Retired(value: Request, epoch: nat)
  datatype EnqueueResult =
    | FastPath(depth: nat)
    | OverflowPath(depth: nat, overflowDepth: nat)
    | Rejected(depth: nat, overflowDepth: nat)

  // ---- Fairness, as implemented ----

  class S3FifoState {
    const config: Config
    const ghosts: GhostIndex<string>
    var active: bool
    var reason: Option<FallbackReason>
    var tenantBacklog: map<string, nat>
    var ghostHitsTotal: nat
    var fairnessRejectedTotal: nat
    var signalSamples: nat
    var signallessStreak: nat
    var unstableStreak: nat
    var fallbackTransitions: nat

    ghost predicate Valid()
      reads this, ghosts
    {
      && config.Sane()
      && ghosts.Valid() && ghosts.capacity == config.ghostCapacity && ghosts.maxGen == config.maxCount
      && (forall t | t in tenantBacklog :: tenantBacklog[t] > 0)
    }

    ghost function State(): Fairness
      reads this, ghosts
    {
      Fairness(active, reason, tenantBacklog, ghosts.history, ghosts.gen, ghostHitsTotal, fairnessRejectedTotal,
               signalSamples, signallessStreak, unstableStreak, fallbackTransitions)
    }

    constructor (config: Config)
      requires config.Sane()
      ensures Valid() && fresh(ghosts) && this.config == config && State() == Fresh([])
    {
      this.config := config;
      ghosts := new GhostIndex<string>(config.ghostCapacity, config.maxCount);
      active, reason, tenantBacklog := true, None, map[];
      ghostHitsTotal, fairnessRejectedTotal, signalSamples := 0, 0, 0;
      signallessStreak, unstableStreak, fallbackTransitions := 0, 0, 0;
    }

    /** Starting over, as clearing the queue does. */
    method Renew()
      requires Valid()
      modifies this, ghosts
      ensures Valid() && State() == Fresh(old(State()).history + [Reset])
    {
      ghosts.Clear();
      active, reason, tenantBacklog := true, None, map[];
      ghostHitsTotal, fairnessRejectedTotal, signalSamples := 0, 0, 0;
      signallessStreak, unstableStreak, fallbackTransitions := 0, 0, 0;
    }

    method TransitionToFallback(why: FallbackReason)
      requires Valid()
      modifies this, ghosts
      ensures Valid() && State() == FallBack(config, old(State()), why)
    {
      hide Bounded, Lists, Inverse;
      if !active {
        return;
      }
      active, reason := false, Some(why);
      fallbackTransitions := Saturating(fallbackTransitions, config.maxCount);
      ghosts.Clear();
      tenantBacklog := map[];
    }

    method RecordGhost(tenant: string)
      requires Valid()
      modifies ghosts
      ensures Valid() && State() == FairnessSpec.RecordGhost(config, old(State()), tenant)
    {
      hide Bounded, Lists, Inverse;
      if tenant == "" {
        return;
      }
      ghosts.Record(tenant);
    }

    method ObserveSignal(tenant: Option<string>)
      requires Valid()
      modifies this, ghosts
      ensures Valid() && State() == Observe(config, old(State()), tenant)
    {
      hide Bounded, Lists, Inverse;
      if !active {
        return;
      }
      if tenant.Some? {
        signalSamples := Saturating(signalSamples, config.maxCount);
        signallessStreak := 0;
      } else {
        signallessStreak := Saturating(signallessStreak, config.maxCount);
        if signallessStreak >= config.maxSignallessStreak && signalSamples < config.minSignalSamples {
          TransitionToFallback(SignalQualityInsufficient);
        }
      }
    }

    method AllowMainAdmission(tenant: Option<string>) returns (allowed: bool)
      requires Valid()
      modifies this, ghosts
      ensures Valid() && State() == Allow(config, old(State()), tenant)
      ensures allowed <==> Granted(config, old(State()), tenant)
    {
      hide Bounded, Lists, Inverse;
      if !active {
        return true;
      }
      if tenant.None? {
        return true;
      }
      var key := tenant.value;
      var backlog := if key in tenantBacklog then tenantBacklog[key] else 0;
      if backlog < config.tenantBudget {
        return true;
      }
      var hit := ghosts.Remove(key);
      if hit {
        ghostHitsTotal := Saturating(ghostHitsTotal, config.maxCount);
        unstableStreak := 0;
        return true;
      }
      fairnessRejectedTotal := Saturating(fairnessRejectedTotal, config.maxCount);
      RecordGhost(key);
      unstableStreak := Saturating(unstableStreak, config.maxCount);
      if unstableStreak >= config.unstableRejectionStreak {
        TransitionToFallback(FairnessInstability);
      }
      allowed := false;
    }

    method OnMainEnqueued(tenant: Option<string>)
      requires Valid()
      modifies this
      ensures Valid() && State() == Enqueued(config, old(State()), tenant)
    {
      hide Bounded, Lists, Inverse;
      if !active {
        return;
      }
      if tenant.Some? {
        if tenant.value in tenantBacklog {
          tenantBacklog := tenantBacklog[tenant.value := tenantBacklog[tenant.value] + 1];
        } else {
          tenantBacklog := tenantBacklog[tenant.value := 1];
        }
      }
      unstableStreak := 0;
    }

    method OnMainDequeued(tenant: Option<string>)
      requires Valid()
      modifies this, ghosts
      ensures Valid() && State() == Dequeued(config, old(State()), tenant)
    {
      hide Bounded, Lists, Inverse;
      if !active || tenant.None? {
        return;
      }
      var key := tenant.value;
      if key in tenantBacklog {
        var left := tenantBacklog[key] - 1;
        if left == 0 {
          tenantBacklog := tenantBacklog - {key};
        } else {
          tenantBacklog := tenantBacklog[key := left];
        }
      } else {
        assert tenantBacklog - {key} == tenantBacklog;
      }
      RecordGhost(key);
    }

    method OnMainOverflowReject(tenant: Option<string>)
      requires Valid()
      modifies this, ghosts
      ensures Valid() && State() == OverflowRejected(config, old(State()), tenant)
    {
      hide Bounded, Lists, Inverse;
      if !active {
        return;
      }
      if tenant.Some? {
        RecordGhost(tenant.value);
      }
      unstableStreak := Saturating(unstableStreak, config.maxCount);
      if unstableStreak >= config.unstableRejectionStreak {
        TransitionToFallback(FairnessInstability);
      }
    }
  }

  // ---- Backlog accounting ----

  function Count(overflow: seq<Request>, tenant: string): nat {
    if overflow == [] then 0
    else (if overflow[0].tenant == Some(tenant) then 1 else 0) + Count(overflow[1..], tenant)
  }

  lemma {:induction false} CountSnoc(overflow: seq<Request>, r: Request, tenant: string)
    ensures Count(overflow + [r], tenant) == Count(overflow, tenant) + if r.tenant == Some(tenant) then 1 else 0
  {
    if overflow != [] {
      assert (overflow + [r])[1..] == overflow[1..] + [r];
      CountSnoc(overflow[1..], r, tenant);
    }
  }

  /** While fairness is on, the backlog of every tenant is its exact number of requests in
      the overflow lane, and exceeds the budget by at most the ghost hits ever granted. */
  ghost predicate Accounted(c: Config, f: Fairness, overflow: seq<Request>) {
    f.active ==>
      forall t ::
        && Backlog(f, t) == Count(overflow, t)
        && (f.ghostHits < c.maxCount ==> Backlog(f, t) <= c.tenantBudget + f.ghostHits)
  }

  lemma PushAccounted(c: Config, f: Fairness, overflow: seq<Request>, r: Request, room: bool)
    requires Accounted(c, f, overflow)
    ensures var g := MainPush(c, f, r.tenant, room);
            Accounted(c, g, if Accepts(c, f, r.tenant, room) then overflow + [r] else overflow)
  {
    hide Bounded, FairnessSpec.RecordGhost;
    var g := MainPush(c, f, r.tenant, room);
    var after := if Accepts(c, f, r.tenant, room) then overflow + [r] else overflow;
    if r.tenant.Some? {
      RecordKeeps(c, f.(rejected := Saturating(f.rejected, c.maxCount)), r.tenant.value);
      RecordKeeps(c, Allow(c, f, r.tenant), r.tenant.value);
    }
    if g.active {
      forall t ensures Backlog(g, t) == Count(after, t)
        && (g.ghostHits < c.maxCount ==> Backlog(g, t) <= c.tenantBudget + g.ghostHits)
      {
        CountSnoc(overflow, r, t);
      }
    }
  }

  lemma PopAccounted(c: Config, f: Fairness, overflow: seq<Request>)
    requires Accounted(c, f, overflow) && overflow != []
    ensures Accounted(c, Dequeued(c, f, overflow[0].tenant), overflow[1..])
  {
    hide Bounded, FairnessSpec.RecordGhost;
    var tenant := overflow[0].tenant;
    if f.active && tenant.Some? {
      var left := Backlog(f, tenant.value);
      assert left == Count(overflow, tenant.value) >= 1;
      var backlog := if left <= 1 then f.backlog - {tenant.value} else f.backlog[tenant.value := left - 1];
      RecordKeeps(c, f.(backlog := backlog), tenant.value);
      var g := Dequeued(c, f, tenant);
      forall t
        ensures Backlog(g, t) == Count(overflow[1..], t)
        ensures g.ghostHits < c.maxCount ==> Backlog(g, t) <= c.tenantBudget + g.ghostHits
      {
        assert Backlog(f, t) == Count(overflow, t);
      }
    }
  }

  /** While fairness is on, a request is accepted exactly when there is room and its tenant, if
      any, has fewer requests in the lane than its budget or is a ghost. */
  lemma AcceptedByCount(c: Config, f: Fairness, overflow: seq<Request>, r: Request, room: bool)
    requires Accounted(c, f, overflow) && f.active
    ensures Accepts(c, f, r.tenant, room)
       <==> room && (r.tenant.None? || Count(overflow, r.tenant.value) < c.tenantBudget || r.tenant.value in Ghosts(c, f))
  {
    if r.tenant.Some? {
      assert Backlog(f, r.tenant.value) == Count(overflow, r.tenant.value);
    }
  }

  lemma ObserveAccounted(c: Config, f: Fairness, overflow: seq<Request>, tenant: Option<string>)
    requires Accounted(c, f, overflow)
    ensures Accounted(c, Observe(c, f, tenant), overflow)
  {
  }

  lemma FreshAccounted(c: Config, history: seq<Event<string>>)
    ensures Accounted(c, Fresh(history), [])
  {
  }

  lemma RecordKeeps(c: Config, f: Fairness, tenant: string)
    ensures var g := FairnessSpec.RecordGhost(c, f, tenant);
            g.active == f.active && g.backlog == f.backlog && g.ghostHits == f.ghostHits
  {
  }

  // ---- Epochs ----

  /** The books of epoch-based retirement: every popped request is either still retired or
      was reclaimed, retired epochs increase, and the backlog is within its threshold. */
  ghost predicate Balanced(retired: seq<Retired>, epoch: nat, pops: nat, reclaimed: nat, threshold: nat) {
    && reclaimed + |retired| == pops <= epoch
    && |retired| <= threshold
    && (forall i, j | 0 <= i < j < |retired| :: retired[i].epoch < retired[j].epoch)
    && (forall x | x in retired :: x.epoch <= epoch)
  }

  /** What reclamation leaves: everything from the first node of the current epoch on. */
  function Unexpired(retired: seq<Retired>, epoch: nat): seq<Retired> {
    if retired != [] && retired[0].epoch < epoch then Unexpired(retired[1..], epoch) else retired
  }

  lemma {:induction false} OnlyCurrent(retired: seq<Retired>, last: Retired)
    requires forall x | x in retired :: x.epoch < last.epoch
    ensures Unexpired(retired + [last], last.epoch) == [last]
  {
    if retired != [] {
      assert (retired + [last])[1..] == retired[1..] + [last];
      OnlyCurrent(retired[1..], last);
    }
  }

  lemma {:induction false} AllExpired(retired: seq<Retired>, epoch: nat)
    requires forall x | x in retired :: x.epoch < epoch
    ensures Unexpired(retired, epoch) == []
  {
    if retired != [] {
      AllExpired(retired[1..], epoch);
    }
  }

  lemma FirstIsLast(retired: seq<Retired>, epoch: nat, pops: nat, reclaimed: nat, threshold: nat)
    requires Balanced(retired, epoch, pops, reclaimed, threshold)
    ensures retired != [] && retired[0].epoch >= epoch ==> |retired| == 1
  {
    if |retired| > 1 {
      assert retired[0].epoch < retired[1].epoch;
    }
  }

  class HostcallRequestQueue {
    const fastCapacity: nat
    const overflowCapacity: nat
    const threshold: nat
    const maxCount: nat
    const s3fifo: S3FifoState
    var fast: seq<Request>
    var overflow: seq<Request>
    var overflowEnqueuedTotal: nat
    var overflowRejectedTotal: nat
    var mode: Mode
    var pins: nat
    var currentEpoch: nat
    var retired: seq<Retired>
    var reclaimedTotal: nat
    var fallbackTransitions: nat
    /** Requests popped since the last clear. */
    ghost var pops: nat

    /** The queue: what a pop would return, in order. */
    function Contents(): seq<Request>
      reads this
    {
      fast + overflow
    }

    ghost predicate Lanes()
      reads this, s3fifo, s3fifo.ghosts
    {
      && |fast| <= fastCapacity && |overflow| <= overflowCapacity
      && s3fifo.Valid() && s3fifo.config.maxCount == maxCount
      && Accounted(s3fifo.config, s3fifo.State(), overflow)
    }

    /** Below the saturation of the epoch counter the books balance while epochs are in use. */
    ghost predicate Books()
      reads this
    {
      && threshold >= 1
      && (mode == Ebr && currentEpoch < maxCount ==> Balanced(retired, currentEpoch, pops, reclaimedTotal, threshold))
      && (mode == SafeFallback ==> retired == [])
    }

    ghost predicate Valid()
      reads this, s3fifo, s3fifo.ghosts
    {
      Lanes() && Books()
    }

    lemma BacklogBounded()
      requires Books()
      ensures mode == Ebr && currentEpoch < maxCount ==> |retired| <= threshold
    {
    }

    lemma NothingRetired()
      requires Valid() && mode == SafeFallback
      ensures retired == []
    {
    }

    constructor (fastCapacity: nat, overflowCapacity: nat, mode: Mode, maxCount: nat)
      requires maxCount >= 1
      ensures Valid() && Contents() == [] && this.mode == mode && fresh(s3fifo) && fresh(s3fifo.ghosts)
      ensures pins == pops == currentEpoch == 0 && retired == []
      ensures this.fastCapacity >= 1 && this.overflowCapacity >= 1 && this.maxCount == maxCount
      ensures s3fifo.config.tenantBudget == Max(this.overflowCapacity / 2, 1)
      ensures s3fifo.config.ghostCapacity == Max((this.fastCapacity + this.overflowCapacity) * 2, 16)
      ensures s3fifo.config.minSignalSamples == 32 && s3fifo.config.maxSignallessStreak == 64
      ensures s3fifo.config.unstableRejectionStreak == 16
      ensures threshold == Max((this.fastCapacity + this.overflowCapacity) * 8, 32)
    {
      var fastRoom, overflowRoom := Max(fastCapacity, 1), Max(overflowCapacity, 1);
      this.fastCapacity, this.overflowCapacity, this.maxCount := fastRoom, overflowRoom, maxCount;
      this.threshold := Max((fastRoom + overflowRoom) * 8, 32);
      s3fifo := new S3FifoState(Config(Max(overflowRoom / 2, 1), Max((fastRoom + overflowRoom) * 2, 16), 32, 64, 16, maxCount));
      fast, overflow, overflowEnqueuedTotal, overflowRejectedTotal := [], [], 0, 0;
      this.mode, pins, currentEpoch, retired, reclaimedTotal, fallbackTransitions, pops := mode, 0, 0, [], 0, 0, 0;
    }

    // ---- Epochs ----

    method PinEpoch()
      requires Valid()
      modifies this`pins
      ensures Valid() && pins == old(pins) + 1
    {
      pins := pins + 1;
    }

    method UnpinEpoch()
      requires Valid() && pins > 0
      modifies this`pins
      ensures Valid() && pins == old(pins) - 1
    {
      pins := pins - 1;
    }

    method BumpEpoch()
      modifies this`currentEpoch
      ensures currentEpoch == Saturating(old(currentEpoch), maxCount)
    {
      currentEpoch := Saturating(currentEpoch, maxCount);
    }

    method TransitionToSafeFallback()
      modifies this`mode, this`fallbackTransitions, this`retired
      ensures mode == SafeFallback
      ensures fallbackTransitions == if old(mode) == SafeFallback then old(fallbackTransitions)
                                     else Saturating(old(fallbackTransitions), maxCount)
      ensures retired == if old(mode) == SafeFallback then old(retired) else []
    {
      if mode == SafeFallback {
        return;
      }
      mode := SafeFallback;
      fallbackTransitions := Saturating(fallbackTransitions, maxCount);
      retired := [];
    }

    /** Reclaims what no pin can still see; with pins held it reclaims nothing, and gives up
        epochs altogether when too much has piled up. */
    method TryReclaim()
      requires threshold >= 1
      requires mode == SafeFallback ==> retired == []
      requires mode == Ebr && currentEpoch < maxCount ==>
                 Balanced(retired, currentEpoch, pops, reclaimedTotal, |retired| + threshold)
      modifies this`mode, this`fallbackTransitions, this`retired, this`reclaimedTotal
      ensures Books()
      ensures pins > 0 && mode == Ebr ==> retired == old(retired) && reclaimedTotal == old(reclaimedTotal)
      ensures mode == SafeFallback <==> old(mode) == SafeFallback || (pins > 0 && |old(retired)| > threshold)
      ensures pins == 0 && mode == Ebr ==> retired == Unexpired(old(retired), currentEpoch)
    {
      if mode != Ebr {
        return;
      }
      if pins > 0 {
        if |retired| > threshold {
          TransitionToSafeFallback();
        }
        return;
      }
      ghost var all := |retired| + threshold;
      while retired != [] && retired[0].epoch < currentEpoch
        invariant mode == Ebr && Unexpired(retired, currentEpoch) == Unexpired(old(retired), currentEpoch)
        invariant currentEpoch < maxCount ==> Balanced(retired, currentEpoch, pops, reclaimedTotal, all)
        decreases |retired|
      {
        reclaimedTotal := Saturating(reclaimedTotal, maxCount);
        retired := retired[1..];
      }
      if currentEpoch < maxCount {
        FirstIsLast(retired, currentEpoch, pops, reclaimedTotal, all);
      }
    }

    method ForceReclaim()
      requires Valid()
      modifies this
      ensures Valid() && Contents() == old(Contents())
      ensures pins == old(pins)
      ensures pins > 0 && mode == Ebr ==> retired == old(retired)
      ensures mode == SafeFallback <==> old(mode) == SafeFallback || (pins > 0 && |old(retired)| > threshold)
      ensures old(currentEpoch) < maxCount ==> mode == old(mode)
      ensures pins == 0 && old(currentEpoch) < maxCount ==> retired == []
    {
      hide Accounted;
      if mode == Ebr && currentEpoch < maxCount {
        AllExpired(retired, currentEpoch + 1);
      }
      BumpEpoch();
      TryReclaim();
    }

    method ForceSafeFallback()
      requires Valid()
      modifies this`mode, this`fallbackTransitions, this`retired
      ensures Valid() && mode == SafeFallback && retired == []
    {
      TransitionToSafeFallback();
    }

    // ---- The queue ----

    method PushBack(request: Request) returns (r: EnqueueResult)
      requires Valid()
      modifies this, s3fifo, s3fifo.ghosts
      ensures Valid() && pins == old(pins) && pops == old(pops)
      ensures Contents() == if r.Rejected? then old(Contents()) else old(Contents()) + [request]
      ensures var c := s3fifo.config;
              var f := Observe(c, old(s3fifo.State()), request.tenant);
              var direct := old(overflow) == [] && |old(fast)| < fastCapacity;
              var room := |old(overflow)| < overflowCapacity;
              && (r.FastPath? <==> direct)
              && (r.Rejected? <==> !direct && !Accepts(c, f, request.tenant, room))
              && s3fifo.State() == if direct then f else MainPush(c, f, request.tenant, room)
      ensures overflowEnqueuedTotal == if r.OverflowPath? then Saturating(old(overflowEnqueuedTotal), maxCount)
                                       else old(overflowEnqueuedTotal)
      ensures overflowRejectedTotal == if r.Rejected? then Saturating(old(overflowRejectedTotal), maxCount)
                                       else old(overflowRejectedTotal)
      ensures match r
              case FastPath(depth) => depth == |Contents()|
              case OverflowPath(depth, overflowDepth) => depth == |Contents()| && overflowDepth == |overflow|
              case Rejected(depth, overflowDepth) => depth == |Contents()| && overflowDepth == |overflow|
      ensures pins > 0 && mode == Ebr ==> retired == old(retired)
      ensures mode == SafeFallback
         <==> old(mode) == SafeFallback || (!r.Rejected? && pins > 0 && |old(retired)| > threshold)
      ensures r.Rejected? ==>
                retired == old(retired) && currentEpoch == old(currentEpoch) && reclaimedTotal == old(reclaimedTotal)
      ensures !r.Rejected? ==> currentEpoch == Saturating(old(currentEpoch), maxCount)
      ensures !r.Rejected? && pins == 0 && old(currentEpoch) < maxCount ==> retired == []
      ensures old(currentEpoch) < maxCount ==> mode == old(mode)
    {
      hide Accounted, Observe, MainPush, Granted, Balanced, Bounded, Lists, Inverse;
      ObserveAccounted(s3fifo.config, s3fifo.State(), overflow, request.tenant);
      BacklogBounded();
      s3fifo.ObserveSignal(request.tenant);
      if overflow == [] && |fast| < fastCapacity {
        fast := fast + [request];
        assert fast + overflow == old(Contents()) + [request];
        Settle();
        return FastPath(|fast| + |overflow|);
      }
      r := PushOverflow(request);
    }

    method PushOverflow(request: Request) returns (r: EnqueueResult)
      requires Valid()
      modifies this, s3fifo, s3fifo.ghosts
      ensures Valid() && pins == old(pins) && pops == old(pops) && fast == old(fast)
      ensures var c, f, room := s3fifo.config, old(s3fifo.State()), |old(overflow)| < overflowCapacity;
              var accepted := Accepts(c, f, request.tenant, room);
              && s3fifo.State() == MainPush(c, f, request.tenant, room)
              && overflow == (if accepted then old(overflow) + [request] else old(overflow))
              && r == (if accepted then OverflowPath(|fast| + |overflow|, |overflow|)
                       else Rejected(|fast| + |overflow|, |overflow|))
              && overflowEnqueuedTotal == (if accepted then Saturating(old(overflowEnqueuedTotal), maxCount)
                                           else old(overflowEnqueuedTotal))
              && overflowRejectedTotal == if accepted then old(overflowRejectedTotal)
                                          else Saturating(old(overflowRejectedTotal), maxCount)
      ensures pins > 0 && mode == Ebr ==> retired == old(retired)
      ensures mode == SafeFallback
         <==> old(mode) == SafeFallback || (!r.Rejected? && pins > 0 && |old(retired)| > threshold)
      ensures r.Rejected? ==>
                retired == old(retired) && currentEpoch == old(currentEpoch) && reclaimedTotal == old(reclaimedTotal)
      ensures !r.Rejected? ==> currentEpoch == Saturating(old(currentEpoch), maxCount)
      ensures !r.Rejected? && pins == 0 && old(currentEpoch) < maxCount ==> retired == []
    {
      hide Accounted, MainPush, Allow, Enqueued, OverflowRejected, Granted, Balanced, Bounded, Lists, Inverse;
      PushAccounted(s3fifo.config, s3fifo.State(), overflow, request, |overflow| < overflowCapacity);
      MainPushCases(s3fifo.config, s3fifo.State(), request.tenant, |overflow| < overflowCapacity);
      var allowed := s3fifo.AllowMainAdmission(request.tenant);
      if !allowed {
        overflowRejectedTotal := Saturating(overflowRejectedTotal, maxCount);
        return Rejected(|fast| + |overflow|, |overflow|);
      }
      if |overflow| < overflowCapacity {
        overflow := overflow + [request];
        overflowEnqueuedTotal := Saturating(overflowEnqueuedTotal, maxCount);
        s3fifo.OnMainEnqueued(request.tenant);
        Settle();
        return OverflowPath(|fast| + |overflow|, |overflow|);
      }
      overflowRejectedTotal := Saturating(overflowRejectedTotal, maxCount);
      s3fifo.OnMainOverflowReject(request.tenant);
      r := Rejected(|fast| + |overflow|, |overflow|);
    }

    /** The epoch work after an accepted push. */
    method Settle()
      requires Books()
      modifies this`currentEpoch, this`mode, this`fallbackTransitions, this`retired, this`reclaimedTotal
      ensures Books()
      ensures pins > 0 && mode == Ebr ==> retired == old(retired)
      ensures mode == SafeFallback <==> old(mode) == SafeFallback || (pins > 0 && |old(retired)| > threshold)
      ensures currentEpoch == Saturating(old(currentEpoch), maxCount)
      ensures pins == 0 && old(currentEpoch) < maxCount ==> retired == []
    {
      if mode == Ebr && currentEpoch < maxCount {
        AllExpired(retired, currentEpoch + 1);
      }
      BumpEpoch();
      TryReclaim();
    }

    method PopFront() returns (value: Option<Request>)
      requires Valid()
      modifies this, s3fifo, s3fifo.ghosts
      ensures Valid() && pins == old(pins)
      ensures value == if old(Contents()) == [] then None else Some(old(Contents())[0])
      ensures Contents() == if old(Contents()) == [] then [] else old(Contents())[1..]
      ensures pops == old(pops) + if value.Some? then 1 else 0
      ensures old(fast) == [] && old(overflow) != [] ==>
                s3fifo.State() == Dequeued(s3fifo.config, old(s3fifo.State()), old(overflow)[0].tenant)
      ensures old(fast) != [] || old(overflow) == [] ==> s3fifo.State() == old(s3fifo.State())
      ensures value.None? ==> mode == old(mode) && retired == old(retired)
      ensures value.Some? ==>
                && (mode == SafeFallback
                    <==> old(mode) == SafeFallback || (pins > 0 && |old(retired)| >= threshold))
                && (pins > 0 && mode == Ebr ==> retired == old(retired) + [Retired(value.value, currentEpoch)])
                && (pins == 0 && mode == Ebr && currentEpoch < maxCount ==> retired == [Retired(value.value, currentEpoch)])
    {
      hide Accounted, Dequeued, Balanced, Bounded, Lists, Inverse;
      if fast != [] {
        value := Some(fast[0]);
        fast := fast[1..];
      } else {
        if overflow == [] {
          return None;
        }
        PopAccounted(s3fifo.config, s3fifo.State(), overflow);
        value := Some(overflow[0]);
        overflow := overflow[1..];
        s3fifo.OnMainDequeued(value.value.tenant);
      }
      Retire(value.value);
    }

    /** The epoch work after a pop. */
    method Retire(value: Request)
      requires Books()
      modifies this`currentEpoch, this`mode, this`fallbackTransitions, this`retired, this`reclaimedTotal, this`pops
      ensures Books() && pops == old(pops) + 1
      ensures mode == SafeFallback <==> old(mode) == SafeFallback || (pins > 0 && |old(retired)| >= threshold)
      ensures pins > 0 && mode == Ebr ==> retired == old(retired) + [Retired(value, currentEpoch)]
      ensures pins == 0 && mode == Ebr && currentEpoch < maxCount ==> retired == [Retired(value, currentEpoch)]
    {
      hide Unexpired;
      BumpEpoch();
      pops := pops + 1;
      if mode == Ebr {
        if currentEpoch < maxCount {
          OnlyCurrent(retired, Retired(value, currentEpoch));
        }
        retired := retired + [Retired(value, currentEpoch)];
      }
      TryReclaim();
    }

    /** Returns everything, in the order it was pushed. */
    method DrainAll() returns (drained: seq<Request>)
      requires Valid()
      modifies this, s3fifo, s3fifo.ghosts
      ensures Valid() && pins == old(pins)
      ensures drained == old(Contents()) && Contents() == []
      ensures pops == old(pops) + |drained|
      ensures mode == SafeFallback
         <==> old(mode) == SafeFallback || (drained != [] && pins > 0 && |old(retired)| + |drained| > threshold)
      ensures pins > 0 && mode == Ebr ==> old(retired) <= retired && |retired| == |old(retired)| + |drained|
    {
      hide Lanes, Books;
      drained := [];
      while true
        invariant Valid() && pins == old(pins)
        invariant drained + Contents() == old(Contents())
        invariant pops == old(pops) + |drained|
        invariant mode == SafeFallback
             <==> old(mode) == SafeFallback || (drained != [] && pins > 0 && |old(retired)| + |drained| > threshold)
        invariant pins > 0 && mode == Ebr ==> old(retired) <= retired && |retired| == |old(retired)| + |drained|
        decreases |Contents()|
      {
        var next := PopFront();
        if next.None? {
          break;
        }
        drained := drained + [next.value];
      }
    }

    /** Starts over, keeping mode and pins; retired requests are dropped even while pinned. */
    method Clear()
      requires Valid()
      modifies this, s3fifo, s3fifo.ghosts
      ensures Valid() && Contents() == [] && pops == 0
      ensures pins == old(pins) && mode == old(mode) && retired == []
      ensures s3fifo.State() == Fresh(old(s3fifo.State()).history + [Reset])
    {
      hide Accounted, Fresh, GhostList.Bounded, Lists, Inverse;
      FreshAccounted(s3fifo.config, s3fifo.State().history + [Reset]);
      fast, overflow, overflowEnqueuedTotal, overflowRejectedTotal := [], [], 0, 0;
      currentEpoch, retired, reclaimedTotal, fallbackTransitions, pops := 0, [], 0, 0, 0;
      s3fifo.Renew();
    }
  }

  /** One pin outlives the pops it guards: the pop that retires one request too many drops
      them all. */
  method PinnedPopsGiveUp(fastCapacity: nat, overflowCapacity: nat, maxCount: nat, request: Request)
    returns (q: HostcallRequestQueue, held: seq<Retired>)
    requires maxCount >= 1
    ensures fresh(q) && q.Valid() && q.pins == 1 && q.pops == |held| + 1
    ensures |held| == q.threshold && forall x | x in held :: x.value == request
    ensures q.mode == SafeFallback && q.retired == []
  {
    hide HostcallRequestQueue.Lanes, HostcallRequestQueue.Books;
    q := new HostcallRequestQueue(fastCapacity, overflowCapacity, Ebr, maxCount);
    held := [];
    q.PinEpoch();
    for n := 0 to q.threshold + 1
      invariant q.Valid() && q.pins == 1 && q.pops == n && q.Contents() == [] && q.fastCapacity >= 1
      invariant fresh(q) && fresh(q.s3fifo) && fresh(q.s3fifo.ghosts)
      invariant n <= q.threshold ==> q.mode == Ebr && |q.retired| == n && forall x | x in q.retired :: x.value == request
      invariant n > q.threshold ==> q.mode == SafeFallback
      invariant n > q.threshold ==> |held| == q.threshold && forall x | x in held :: x.value == request
    {
      held := q.retired;
      var pushed := q.PushBack(request);
      var popped := q.PopFront();
    }
    q.NothingRetired();
  }

  lemma MainPushCases(c: Config, f: Fairness, tenant: Option<string>, room: bool)
    ensures MainPush(c, f, tenant, room)
            == if !Granted(c, f, tenant) then Allow(c, f, tenant)
               else if room then Enqueued(c, Allow(c, f, tenant), tenant)
               else OverflowRejected(c, Allow(c, f, tenant), tenant)
    ensures Accepts(c, f, tenant, room) <==> Granted(c, f, tenant) && room
  {
  }
}
