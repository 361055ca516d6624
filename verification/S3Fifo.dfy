/** The S3-FIFO admission policy as implemented: besides the two queues it keeps a tier map,
    an owner map, per-owner counts and the two ghost maps, all updated in place.  Every
    method is proved against the state machine of `S3FifoSpec`. */
module S3Fifo {
  import opened Basics
  import opened Seqs
  import opened GhostList
  import opened S3FifoSpec
  import S3FifoRuns

  datatype LiveTier = Small | Main

  datatype Decision = Decision(
    kind: Kind,
    tier: Tier,
    ghostHit: bool,
    reason: Option<FallbackReason>,
    liveDepth: nat,
    smallDepth: nat,
    mainDepth: nat,
    ghostDepth: nat)

  function ResolveTier(kind: Kind, ghostHit: bool): Tier {
    match kind
    case HitMain => MainTier
    case PromoteSmallToMain => MainTier
    case AdmitFromGhost => MainTier
    case AdmitSmall => SmallTier
    case RejectFairnessBudget => if ghostHit then GhostTier else SmallTier
    case FallbackBypass => FallbackTier
  }

  // ---- The redundant indexes, over plain values ----

  /** `tiers` is exactly the tier of each queued key. */
  ghost predicate TiersOf<K>(small: seq<K>, main: seq<K>, tiers: map<K, LiveTier>) {
    && (forall k | k in small :: k in tiers && tiers[k] == Small)
    && (forall k | k in main :: k in tiers && tiers[k] == Main)
    && (forall k | k in tiers :: if tiers[k] == Small then k in small else k in main)
  }

  /** `counts` is exactly the number of live keys of each owner that has any. */
  ghost predicate CountsOf<K, O>(owners: map<K, O>, counts: map<O, nat>) {
    && (forall o | o in counts :: counts[o] == |OwnedBy(owners, o)| > 0)
    && (forall k | k in owners :: owners[k] in counts)
  }

  function Raised<O(==)>(counts: map<O, nat>, o: O): map<O, nat> {
    counts[o := (if o in counts then counts[o] else 0) + 1]
  }

  function Lowered<O(==)>(counts: map<O, nat>, o: O): map<O, nat> {
    if o !in counts then counts else if counts[o] > 1 then counts[o := counts[o] - 1] else counts - {o}
  }

  lemma CountLookup<K, O>(owners: map<K, O>, counts: map<O, nat>, o: O)
    requires CountsOf(owners, counts)
    ensures |OwnedBy(owners, o)| == if o in counts then counts[o] else 0
  {
    if o !in counts {
      assert forall k | k in owners :: owners[k] != o;
      assert OwnedBy(owners, o) == {};
    }
  }

  lemma CountsInsert<K, O>(owners: map<K, O>, counts: map<O, nat>, key: K, o: O)
    requires CountsOf(owners, counts) && key !in owners
    ensures CountsOf(owners[key := o], Raised(counts, o))
  {
    CountLookup(owners, counts, o);
    var after := Raised(counts, o);
    forall p | p in after ensures after[p] == |OwnedBy(owners[key := o], p)| > 0 {
      OwnedByInsert(owners, key, o, p);
    }
  }

  lemma CountsRemove<K, O>(owners: map<K, O>, counts: map<O, nat>, key: K)
    requires CountsOf(owners, counts) && key in owners
    ensures CountsOf(owners - {key}, Lowered(counts, owners[key]))
  {
    var after := Lowered(counts, owners[key]);
    forall p | p in after ensures after[p] == |OwnedBy(owners - {key}, p)| > 0 {
      OwnedByRemove(owners, key, p);
    }
    forall k | k in owners - {key} ensures owners[k] in after {
      OwnedByRemove(owners, key, owners[key]);
      if owners[k] == owners[key] {
        assert k in OwnedBy(owners - {key}, owners[key]);
      }
    }
  }

  class S3FifoPolicy<K(==), O(==)> {
    const cfg: Config
    const ghosts: GhostIndex<K>
    var small: seq<K>
    var main: seq<K>
    var liveTiers: map<K, LiveTier>
    var liveOwners: map<K, O>
    var ownerLiveCounts: map<O, nat>
    var recentSignals: seq<Signal>
    var reason: Option<FallbackReason>
    var ghostHitsTotal: nat
    var admissionsTotal: nat
    var promotionsTotal: nat
    var budgetRejectionsTotal: nat

    /** The indexes agree with the queues; holds also between the steps of one access. */
    ghost predicate Indexed()
      reads this, ghosts
    {
      && cfg.Sane()
      && ghosts.Valid() && ghosts.capacity == cfg.ghostCapacity && ghosts.maxGen == cfg.maxCount
      && Distinct(small) && Distinct(main)
      && TiersOf(small, main, liveTiers)
      && CountsOf(liveOwners, ownerLiveCounts)
      && liveOwners.Keys == liveTiers.Keys
    }

    ghost predicate Valid()
      reads this, ghosts
    {
      Indexed() && WellFormed(cfg, State())
    }

    ghost function State(): Policy<K, O>
      reads this, ghosts
    {
      Policy(small, main, liveOwners, ghosts.history, ghosts.gen, recentSignals, reason,
             ghostHitsTotal, admissionsTotal, promotionsTotal, budgetRejectionsTotal)
    }

    constructor (config: Config)
      requires config.maxCount >= 1
      ensures Valid() && fresh(ghosts) && cfg == Clamped(config)
      ensures State() == Initial()
    {
      var clamped := Clamped(config);
      cfg := clamped;
      ghosts := new GhostIndex<K>(clamped.ghostCapacity, clamped.maxCount);
      small, main, liveTiers, liveOwners, ownerLiveCounts := [], [], map[], map[], map[];
      recentSignals, reason := [], None;
      ghostHitsTotal, admissionsTotal, promotionsTotal, budgetRejectionsTotal := 0, 0, 0, 0;
    }

    function LiveDepth(): nat
      reads this
    {
      |small| + |main|
    }

    method Clear()
      requires Valid()
      modifies this`reason, this`recentSignals
      ensures Valid() && State() == ClearFallback(old(State()))
    {
      hide WellFormed, Distinct, TiersOf, CountsOf, GhostIndex.Valid;
      ClearKeeps(cfg, State());
      reason := None;
      recentSignals := [];
    }

    // ---- Owners ----

    method OwnerAtBudget(owner: O) returns (full: bool)
      requires Indexed()
      ensures full <==> AtBudget(cfg, State(), owner)
    {
      CountLookup(liveOwners, ownerLiveCounts, owner);
      full := (if owner in ownerLiveCounts then ownerLiveCounts[owner] else 0) >= cfg.maxEntriesPerOwner;
    }

    method IncrementOwner(owner: O)
      modifies this`ownerLiveCounts
      ensures ownerLiveCounts == Raised(old(ownerLiveCounts), owner)
    {
      if owner in ownerLiveCounts {
        ownerLiveCounts := ownerLiveCounts[owner := ownerLiveCounts[owner] + 1];
      } else {
        ownerLiveCounts := ownerLiveCounts[owner := 1];
      }
    }

    method DecrementOwner(owner: O)
      modifies this`ownerLiveCounts
      ensures ownerLiveCounts == Lowered(old(ownerLiveCounts), owner)
    {
      if owner in ownerLiveCounts {
        if ownerLiveCounts[owner] > 1 {
          ownerLiveCounts := ownerLiveCounts[owner := ownerLiveCounts[owner] - 1];
        } else {
          ownerLiveCounts := ownerLiveCounts - {owner};
        }
      }
    }

    method RemoveOwnerForKey(key: K)
      requires CountsOf(liveOwners, ownerLiveCounts)
      modifies this`liveOwners, this`ownerLiveCounts
      ensures liveOwners == old(liveOwners) - {key}
      ensures CountsOf(liveOwners, ownerLiveCounts)
    {
      if key in liveOwners {
        CountsRemove(liveOwners, ownerLiveCounts, key);
        var owner := liveOwners[key];
        liveOwners := liveOwners - {key};
        DecrementOwner(owner);
      } else {
        assert liveOwners - {key} == liveOwners;
      }
    }

    // ---- Eviction ----

    method EvictSmallFrontToGhost()
      requires Indexed()
      modifies this, ghosts
      ensures Indexed()
      ensures State() == if old(small) == [] then old(State()) else EvictSmall(cfg, old(State()))
    {
      hide Bounded, Lists, Inverse, TiersOf, CountsOf, OwnedBy, Distinct;
      if small != [] {
        var key := small[0];
        TiersPopSmall(small, main, liveTiers);
        small := small[1..];
        liveTiers := liveTiers - {key};
        RemoveOwnerForKey(key);
        ghosts.Record(key);
      }
    }

    method EvictMainFrontToGhost()
      requires Indexed()
      modifies this, ghosts
      ensures Indexed()
      ensures State() == if old(main) == [] then old(State()) else EvictMain(cfg, old(State()))
    {
      hide Bounded, Lists, Inverse, TiersOf, CountsOf, OwnedBy, Distinct;
      if main != [] {
        var key := main[0];
        TiersPopMain(small, main, liveTiers);
        main := main[1..];
        liveTiers := liveTiers - {key};
        RemoveOwnerForKey(key);
        ghosts.Record(key);
      }
    }

    method EnforceSmallCapacity()
      requires Indexed()
      modifies this, ghosts
      ensures Indexed()
      ensures State() == TrimSmall(cfg, old(State()))
    {
      hide Bounded, Lists, Inverse, TiersOf, CountsOf, OwnedBy, Distinct, Without;
      while |small| > cfg.smallCapacity
        invariant Indexed() && TrimSmall(cfg, State()) == TrimSmall(cfg, old(State()))
        decreases |small|
      {
        EvictSmallFrontToGhost();
      }
    }

    method EnforceMainCapacity()
      requires Indexed()
      modifies this, ghosts
      ensures Indexed()
      ensures State() == TrimMain(cfg, old(State()))
    {
      hide Bounded, Lists, Inverse, TiersOf, CountsOf, OwnedBy, Distinct, Without;
      while |main| > cfg.MainCapacity()
        invariant Indexed() && TrimMain(cfg, State()) == TrimMain(cfg, old(State()))
        decreases |main|
      {
        EvictMainFrontToGhost();
      }
    }

    method EnforceLiveCapacity()
      requires Indexed()
      modifies this, ghosts
      ensures Indexed()
      ensures State() == TrimLive(cfg, old(State()))
    {
      hide Bounded, Lists, Inverse, TiersOf, CountsOf, OwnedBy, Distinct, Without;
      while LiveDepth() > cfg.liveCapacity
        invariant Indexed() && TrimLive(cfg, State()) == TrimLive(cfg, old(State()))
        decreases LiveDepth()
      {
        if small == [] {
          EvictMainFrontToGhost();
        } else {
          EvictSmallFrontToGhost();
        }
      }
    }

    // ---- Placing a key ----

    method RemoveLiveKey(key: K)
      requires Indexed()
      modifies this
      ensures Indexed()
      ensures !Live(old(State()), key) ==> State() == old(State())
      ensures State() == old(State()).(small := Without(old(small), key), main := Without(old(main), key),
                                       owners := old(liveOwners) - {key})
    {
      hide Bounded, Lists, Inverse, TiersOf, CountsOf, OwnedBy, Distinct, Without;
      TiersForget(small, main, liveTiers, key);
      TiersAt(small, main, liveTiers, key);
      if key in liveTiers {
        var tier := liveTiers[key];
        liveTiers := liveTiers - {key};
        match tier {
          case Small => small := RemoveFromQueue(small, key);
          case Main => main := RemoveFromQueue(main, key);
        }
        RemoveOwnerForKey(key);
      } else {
        assert liveOwners - {key} == liveOwners;
      }
    }

    /** Takes a key out of its tier, its owner and the ghost list, wherever it is. */
    method PurgeKey(key: K)
      requires Indexed()
      modifies this, ghosts
      ensures Indexed()
      ensures State() == old(State()).(small := Without(old(small), key), main := Without(old(main), key),
                                       owners := old(liveOwners) - {key},
                                       history := if key in Ghosts(cfg, old(State()))
                                                  then old(ghosts.history) + [Removed(key)] else old(ghosts.history))
      ensures !Live(old(State()), key) && key !in Ghosts(cfg, old(State())) ==> State() == old(State())
    {
      hide Bounded, Lists, Inverse, TiersOf, CountsOf, OwnedBy, Distinct, Without;
      RemoveLiveKey(key);
      var hit := ghosts.Remove(key);
    }

    method AdmitSmall(owner: O, key: K)
      requires Valid() && KindOf(cfg, State(), owner, key) == Kind.AdmitSmall
      modifies this, ghosts
      ensures Indexed()
      ensures State() == Moved(cfg, old(State()), owner, key, Kind.AdmitSmall)
    {
      hide TrimSmall, TrimMain, TrimLive, SpillSmall, SpillMain;
      hide Bounded, Lists, Inverse, TiersOf, CountsOf, OwnedBy, Distinct, Without;
      PurgeKey(key);
      TiersInsert(small, main, liveTiers, key, Small);
      CountsInsert(liveOwners, ownerLiveCounts, key, owner);
      small := small + [key];
      liveTiers := liveTiers[key := Small];
      liveOwners := liveOwners[key := owner];
      IncrementOwner(owner);
      TrimsOnce(cfg, State());
      EnforceSmallCapacity();
      EnforceLiveCapacity();
    }

    method AdmitFromGhost(owner: O, key: K)
      requires Valid() && KindOf(cfg, State(), owner, key) == Kind.AdmitFromGhost
      modifies this, ghosts
      ensures Indexed()
      ensures State() == Moved(cfg, old(State()), owner, key, Kind.AdmitFromGhost)
    {
      hide TrimSmall, TrimMain, TrimLive, SpillSmall, SpillMain;
      hide Bounded, Lists, Inverse, TiersOf, CountsOf, OwnedBy, Distinct, Without;
      var hit := ghosts.Remove(key);
      TiersInsert(small, main, liveTiers, key, Main);
      CountsInsert(liveOwners, ownerLiveCounts, key, owner);
      main := main + [key];
      liveTiers := liveTiers[key := Main];
      liveOwners := liveOwners[key := owner];
      IncrementOwner(owner);
      TrimsOnce(cfg, State());
      EnforceMainCapacity();
      EnforceLiveCapacity();
    }

    method PromoteSmallToMain(key: K)
      requires Valid() && key in small && key !in main
      modifies this, ghosts
      ensures Indexed()
      ensures forall owner :: State() == Moved(cfg, old(State()), owner, key, Kind.PromoteSmallToMain)
    {
      hide TrimSmall, TrimMain, TrimLive, SpillSmall, SpillMain;
      hide Bounded, Lists, Inverse, TiersOf, CountsOf, OwnedBy, Distinct, Without;
      TiersForget(small, main, liveTiers, key);
      WithoutAbsent(main, key);
      TiersInsert(Without(small, key), main, liveTiers - {key}, key, Main);
      assert (liveTiers - {key})[key := Main] == liveTiers[key := Main];
      small := RemoveFromQueue(small, key);
      main := main + [key];
      liveTiers := liveTiers[key := Main];
      TrimsOnce(cfg, State());
      EnforceMainCapacity();
      EnforceLiveCapacity();
    }

    method TouchMain(key: K)
      requires Valid() && key in main
      modifies this`main
      ensures Indexed()
      ensures forall owner :: State() == Moved(cfg, old(State()), owner, key, Kind.HitMain)
    {
      hide Bounded, Lists, Inverse, TiersOf, CountsOf, OwnedBy, Distinct, Without;
      TiersForget(small, main, liveTiers, key);
      TiersDisjoint(small, main, liveTiers, key);
      WithoutAbsent(small, key);
      TiersInsert(small, Without(main, key), liveTiers - {key}, key, Main);
      assert (liveTiers - {key})[key := Main] == liveTiers;
      main := RemoveFromQueue(main, key);
      main := main + [key];
    }

    // ---- The fallback latch ----

    method RecordSignal(signal: Signal)
      modifies this`recentSignals
      ensures recentSignals == Latest(old(recentSignals) + [signal], cfg.fallbackWindow)
    {
      ghost var all := recentSignals + [signal];
      recentSignals := recentSignals + [signal];
      while |recentSignals| > cfg.fallbackWindow
        invariant Min(|all|, cfg.fallbackWindow) <= |recentSignals| <= |all|
        invariant recentSignals == all[|all| - |recentSignals|..]
        decreases |recentSignals|
      {
        recentSignals := recentSignals[1..];
      }
    }

    method EvaluateFallback()
      modifies this`reason
      ensures reason == if old(reason).Some? then old(reason) else Verdict(cfg, recentSignals)
    {
      if reason.Some? || |recentSignals| < cfg.fallbackWindow {
        return;
      }
      var ghostHits, budgetRejections := 0, 0;
      for i := 0 to |recentSignals|
        invariant ghostHits == CountHits(recentSignals[..i])
        invariant budgetRejections == CountRejections(recentSignals[..i])
      {
        assert recentSignals[..i + 1][..i] == recentSignals[..i];
        if recentSignals[i].ghostHit {
          ghostHits := ghostHits + 1;
        }
        if recentSignals[i].budgetRejected {
          budgetRejections := budgetRejections + 1;
        }
      }
      assert recentSignals[..|recentSignals|] == recentSignals;
      if ghostHits < cfg.minGhostHits {
        reason := Some(SignalQualityInsufficient);
      } else if budgetRejections > cfg.maxBudgetRejections {
        reason := Some(FairnessInstability);
      }
    }

    method Decide(kind: Kind, tier: Tier, ghostHit: bool, why: Option<FallbackReason>) returns (d: Decision)
      requires Indexed()
      ensures d == DecisionFor(cfg, State(), kind, tier, ghostHit, why)
    {
      var ghostDepth := ghosts.Depth();
      d := Decision(kind, tier, ghostHit, why, LiveDepth(), |small|, |main|, ghostDepth);
    }

    /** The tier movement of one access, before its signal is recorded. */
    method Place(owner: O, key: K) returns (kind: Kind, ghostHit: bool)
      requires Valid() && reason == None
      modifies this, ghosts
      ensures Indexed()
      ensures kind == KindOf(cfg, old(State()), owner, key) && ghostHit == GhostHit(cfg, old(State()), key)
      ensures State() == Counted(cfg, Moved(cfg, old(State()), owner, key, kind), kind, ghostHit)
    {
      hide WellFormed, Moved, AtBudget;
      hide Bounded, Lists, Inverse, TiersOf, CountsOf, OwnedBy, Distinct, Without;
      TiersAt(small, main, liveTiers, key);
      TiersDisjoint(small, main, liveTiers, key);
      ghost var before := State();
      MovedKeepsLatch(cfg, before, owner, key, KindOf(cfg, before, owner, key));
      RejectedStays(cfg, before, owner, key);
      HitsIrrelevant(cfg, before, owner, key, Bumped(cfg, ghostHitsTotal, true));
      ghostHit := false;
      var listed := ghosts.Contains(key);
      var full := OwnerAtBudget(owner);
      if key in liveTiers && liveTiers[key] == Main {
        TouchMain(key);
        kind := HitMain;
      } else if key in liveTiers && liveTiers[key] == Small {
        PromoteSmallToMain(key);
        promotionsTotal := Bumped(cfg, promotionsTotal, true);
        kind := Kind.PromoteSmallToMain;
      } else if listed {
        ghostHit := true;
        ghostHitsTotal := Bumped(cfg, ghostHitsTotal, true);
        if full {
          budgetRejectionsTotal := Bumped(cfg, budgetRejectionsTotal, true);
          kind := RejectFairnessBudget;
        } else {
          AdmitFromGhost(owner, key);
          admissionsTotal := Bumped(cfg, admissionsTotal, true);
          kind := Kind.AdmitFromGhost;
        }
      } else if full {
        budgetRejectionsTotal := Bumped(cfg, budgetRejectionsTotal, true);
        kind := RejectFairnessBudget;
      } else {
        AdmitSmall(owner, key);
        admissionsTotal := Bumped(cfg, admissionsTotal, true);
        kind := Kind.AdmitSmall;
      }
    }

    method Access(owner: O, key: K) returns (d: Decision)
      requires Valid()
      modifies this, ghosts
      ensures Valid()
      ensures State() == S3FifoSpec.Access(cfg, old(State()), owner, key)
      ensures var kind := KindOf(cfg, old(State()), owner, key);
              var hit := kind != FallbackBypass && GhostHit(cfg, old(State()), key);
              d == DecisionFor(cfg, State(), kind, ResolveTier(kind, hit), hit, reason)
    {
      hide WellFormed, Moved, Bumped, AtBudget, Verdict;
      hide Bounded, Lists, Inverse, TiersOf, CountsOf, OwnedBy, Distinct, Without;
      AccessKeeps(cfg, State(), owner, key);
      if reason.Some? {
        d := Decide(FallbackBypass, FallbackTier, false, reason);
        return;
      }
      ghost var before := State();
      var kind, ghostHit := Place(owner, key);
      MovedKeepsLatch(cfg, before, owner, key, kind);
      RecordSignal(Signal(ghostHit, kind == RejectFairnessBudget));
      EvaluateFallback();
      d := Decide(kind, ResolveTier(kind, ghostHit), ghostHit, reason);
    }
  }

  function DecisionFor<K(==), O>(c: Config, s: Policy<K, O>, kind: Kind, tier: Tier, ghostHit: bool,
                                 why: Option<FallbackReason>): Decision
  {
    Decision(kind, tier, ghostHit, why, |s.small| + |s.main|, |s.small|, |s.main|, |Ghosts(c, s)|)
  }

  /** The tier reported is where the key is after the access: main, or ghost, or else small,
      which also stands for nowhere; a bypassed access reports the fallback. */
  lemma TierIsPlace<K, O>(c: Config, s: Policy<K, O>, owner: O, key: K)
    requires c.Sane() && WellFormed(c, s)
    ensures var kind, t := KindOf(c, s, owner, key), S3FifoSpec.Access(c, s, owner, key);
            var tier := ResolveTier(kind, kind != FallbackBypass && GhostHit(c, s, key));
            tier == if s.reason.Some? then FallbackTier
                    else if key in t.main then MainTier
                    else if key in Ghosts(c, t) then GhostTier
                    else SmallTier
  {
    S3FifoRuns.AccessByPlace(c, s, owner, key);
    if s.reason == None {
      S3FifoRuns.SignalByPlace(c, s, owner, key);
    }
    AccessKeeps(c, s, owner, key);
    if KindOf(c, s, owner, key) == RejectFairnessBudget {
      RefusedGhosts(c, s, owner, key);
    }
    WithoutDistinct(s.main, key);
    hide S3FifoSpec.Access, Bounded, WithinBudget, Distinct, Without;
  }

  lemma RefusedGhosts<K, O>(c: Config, s: Policy<K, O>, owner: O, key: K)
    requires KindOf(c, s, owner, key) == RejectFairnessBudget
    ensures Ghosts(c, S3FifoSpec.Access(c, s, owner, key)) == Ghosts(c, s)
  {
  }

  /** The kind reported, by where the key was. */
  lemma KindIsPlace<K, O>(c: Config, s: Policy<K, O>, owner: O, key: K)
    requires c.Sane() && WellFormed(c, s)
    ensures KindOf(c, s, owner, key)
            == if s.reason.Some? then FallbackBypass
               else if key in s.main then HitMain
               else if key in s.small then PromoteSmallToMain
               else if |OwnedBy(s.owners, owner)| == c.maxEntriesPerOwner then RejectFairnessBudget
               else if key in Ghosts(c, s) then AdmitFromGhost
               else AdmitSmall
  {
    S3FifoRuns.OwnerWithinBudget(c, s, owner);
  }

  method RemoveFromQueue<K(==)>(queue: seq<K>, key: K) returns (rest: seq<K>)
    ensures rest == Without(queue, key)
  {
    var index := 0;
    while index < |queue| && queue[index] != key
      invariant index <= |queue|
      invariant key !in queue[..index]
    {
      index := index + 1;
    }
    assert queue == queue[..index] + queue[index..];
    WithoutRest(queue[..index], queue[index..], key);
    if index < |queue| {
      rest := queue[..index] + queue[index + 1..];
    } else {
      rest := queue;
    }
  }

  lemma TiersAt<K>(small: seq<K>, main: seq<K>, tiers: map<K, LiveTier>, key: K)
    requires TiersOf(small, main, tiers)
    ensures key in small <==> key in tiers && tiers[key] == Small
    ensures key in main <==> key in tiers && tiers[key] == Main
  {
  }

  lemma TiersDisjoint<K>(small: seq<K>, main: seq<K>, tiers: map<K, LiveTier>, key: K)
    requires TiersOf(small, main, tiers)
    ensures !(key in small && key in main)
  {
  }

  lemma TiersInsert<K>(small: seq<K>, main: seq<K>, tiers: map<K, LiveTier>, key: K, tier: LiveTier)
    requires TiersOf(small, main, tiers) && key !in tiers && Distinct(small) && Distinct(main)
    ensures tier == Small ==> TiersOf(small + [key], main, tiers[key := tier]) && Distinct(small + [key])
    ensures tier == Main ==> TiersOf(small, main + [key], tiers[key := tier]) && Distinct(main + [key])
  {
  }

  lemma TiersForget<K>(small: seq<K>, main: seq<K>, tiers: map<K, LiveTier>, key: K)
    requires TiersOf(small, main, tiers) && Distinct(small) && Distinct(main)
    ensures TiersOf(Without(small, key), Without(main, key), tiers - {key})
    ensures Distinct(Without(small, key)) && Distinct(Without(main, key))
    ensures (key in tiers && tiers[key] == Main) || key !in tiers ==> Without(small, key) == small
    ensures (key in tiers && tiers[key] == Small) || key !in tiers ==> Without(main, key) == main
  {
    WithoutDistinct(small, key);
    WithoutDistinct(main, key);
    if key !in small {
      WithoutAbsent(small, key);
    }
    if key !in main {
      WithoutAbsent(main, key);
    }
  }

  lemma TiersPopSmall<K>(small: seq<K>, main: seq<K>, tiers: map<K, LiveTier>)
    requires TiersOf(small, main, tiers) && Distinct(small) && small != []
    ensures TiersOf(small[1..], main, tiers - {small[0]}) && Distinct(small[1..])
    ensures small[0] in tiers
  {
    assert small == [small[0]] + small[1..];
    forall k | k in main ensures k != small[0] {
      assert tiers[k] == Main;
    }
  }

  lemma TiersPopMain<K>(small: seq<K>, main: seq<K>, tiers: map<K, LiveTier>)
    requires TiersOf(small, main, tiers) && Distinct(main) && main != []
    ensures TiersOf(small, main[1..], tiers - {main[0]}) && Distinct(main[1..])
    ensures main[0] in tiers
  {
    assert main == [main[0]] + main[1..];
    forall k | k in small ensures k != main[0] {
      assert tiers[k] == Small;
    }
  }
}
