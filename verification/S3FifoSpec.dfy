/** The S3-FIFO admission policy as a pure state machine: two live tiers, the owner of each
    live key, the history of the ghost list, and a latched fallback.  Everything the
    implementation keeps besides (tier map, owner counts, generation maps) is derived. */
module S3FifoSpec {
  import opened Basics
  import opened Seqs
  import opened GhostList

  datatype Tier = SmallTier | MainTier | GhostTier | FallbackTier
  datatype Kind = AdmitSmall | PromoteSmallToMain | HitMain | AdmitFromGhost | RejectFairnessBudget | FallbackBypass
  datatype Signal = Signal(ghostHit: bool, budgetRejected: bool)

  datatype Config = Config(
    liveCapacity: nat,
    smallCapacity: nat,
    ghostCapacity: nat,
    maxEntriesPerOwner: nat,
    fallbackWindow: nat,
    minGhostHits: nat,
    maxBudgetRejections: nat,
    maxCount: nat)  // the value at which u64 counters saturate
  {
    predicate Sane() {
      && 1 <= smallCapacity < liveCapacity
      && ghostCapacity >= 1 && maxEntriesPerOwner >= 1 && fallbackWindow >= 1 && maxCount >= 1
      && minGhostHits <= fallbackWindow && maxBudgetRejections <= fallbackWindow
    }

    function MainCapacity(): nat {
      if liveCapacity <= smallCapacity then 0 else liveCapacity - smallCapacity
    }
  }

  /** The clamping done when a policy is created: every configuration becomes a sane one. */
  function Clamped(c: Config): (r: Config)
    requires c.maxCount >= 1
    ensures r.Sane()
    ensures c.Sane() ==> r == c
  {
    var live := Max(c.liveCapacity, 2);
    var window := Max(c.fallbackWindow, 1);
    Config(live, Min(Max(c.smallCapacity, 1), Max(live - 1, 1)), Max(c.ghostCapacity, 1),
           Max(c.maxEntriesPerOwner, 1), window, Min(c.minGhostHits, window),
           Min(c.maxBudgetRejections, window), c.maxCount)
  }

  function Distance(a: nat, b: nat): nat { if a < b then b - a else a - b }

  /** Each field is clamped to the nearest value that is usable with the others. */
  lemma ClampedIsNearest(c: Config, v: nat)
    requires c.maxCount >= 1
    ensures var r := Clamped(c);
            && (v >= 2 ==> Distance(r.liveCapacity, c.liveCapacity) <= Distance(v, c.liveCapacity))
            && (1 <= v < r.liveCapacity ==> Distance(r.smallCapacity, c.smallCapacity) <= Distance(v, c.smallCapacity))
            && (v >= 1 ==> Distance(r.ghostCapacity, c.ghostCapacity) <= Distance(v, c.ghostCapacity))
            && (v >= 1 ==> Distance(r.maxEntriesPerOwner, c.maxEntriesPerOwner) <= Distance(v, c.maxEntriesPerOwner))
            && (v >= 1 ==> Distance(r.fallbackWindow, c.fallbackWindow) <= Distance(v, c.fallbackWindow))
            && (v <= r.fallbackWindow ==> Distance(r.minGhostHits, c.minGhostHits) <= Distance(v, c.minGhostHits))
            && (v <= r.fallbackWindow ==>
                  Distance(r.maxBudgetRejections, c.maxBudgetRejections) <= Distance(v, c.maxBudgetRejections))
  {
  }

  datatype Policy<K, O> = Policy(
    small: seq<K>,
    main: seq<K>,
    owners: map<K, O>,
    history: seq<Event<K>>,
    gen: nat,
    signals: seq<Signal>,
    reason: Option<FallbackReason>,
    ghostHits: nat,
    admissions: nat,
    promotions: nat,
    rejections: nat)

  function Initial<K, O>(): Policy<K, O> {
    Policy([], [], map[], [], 0, [], None, 0, 0, 0, 0)
  }

  function Ghosts<K(==), O>(c: Config, s: Policy<K, O>): seq<K> {
    Bounded(c.ghostCapacity, s.history)
  }

  predicate Live<K(==), O>(s: Policy<K, O>, key: K) {
    key in s.small || key in s.main
  }

  function OwnedBy<K(==), O(==)>(owners: map<K, O>, owner: O): set<K> {
    set k | k in owners && owners[k] == owner
  }

  predicate AtBudget<K(==), O(==)>(c: Config, s: Policy<K, O>, owner: O) {
    |OwnedBy(s.owners, owner)| >= c.maxEntriesPerOwner
  }

  // ---- One access ----

  function KindOf<K(==), O(==)>(c: Config, s: Policy<K, O>, owner: O, key: K): Kind {
    if s.reason.Some? then FallbackBypass
    else if key in s.main then HitMain
    else if key in s.small then PromoteSmallToMain
    else if AtBudget(c, s, owner) then RejectFairnessBudget
    else if key in Ghosts(c, s) then AdmitFromGhost
    else AdmitSmall
  }

  predicate GhostHit<K(==), O(==)>(c: Config, s: Policy<K, O>, key: K) {
    !Live(s, key) && key in Ghosts(c, s)
  }

  /** Records an evicted key as a ghost; the list restarts when generations run out. */
  function Ghosted<K(==), O>(c: Config, s: Policy<K, O>, key: K): Policy<K, O> {
    s.(history := (if s.gen == c.maxCount then s.history + [Reset] else s.history) + [Recorded(key)],
       gen := if s.gen == c.maxCount then 1 else s.gen + 1)
  }

  function EvictSmall<K(==), O>(c: Config, s: Policy<K, O>): Policy<K, O>
    requires s.small != []
  {
    Ghosted(c, s.(small := s.small[1..], owners := s.owners - {s.small[0]}), s.small[0])
  }

  function EvictMain<K(==), O>(c: Config, s: Policy<K, O>): Policy<K, O>
    requires s.main != []
  {
    Ghosted(c, s.(main := s.main[1..], owners := s.owners - {s.main[0]}), s.main[0])
  }

  function SpillSmall<K(==), O>(c: Config, s: Policy<K, O>): Policy<K, O> {
    if |s.small| > c.smallCapacity then EvictSmall(c, s) else s
  }

  function SpillMain<K(==), O>(c: Config, s: Policy<K, O>): Policy<K, O> {
    if |s.main| > c.MainCapacity() then EvictMain(c, s) else s
  }

  // The capacity loops of the implementation, which evict until the tier fits.

  function TrimSmall<K(==), O>(c: Config, s: Policy<K, O>): Policy<K, O>
    decreases |s.small|
  {
    if |s.small| <= c.smallCapacity then s else TrimSmall(c, EvictSmall(c, s))
  }

  function TrimMain<K(==), O>(c: Config, s: Policy<K, O>): Policy<K, O>
    decreases |s.main|
  {
    if |s.main| <= c.MainCapacity() then s else TrimMain(c, EvictMain(c, s))
  }

  function TrimLive<K(==), O>(c: Config, s: Policy<K, O>): Policy<K, O>
    decreases |s.small| + |s.main|
  {
    if |s.small| + |s.main| <= c.liveCapacity then s
    else if s.small == [] then TrimLive(c, EvictMain(c, s))
    else TrimLive(c, EvictSmall(c, s))
  }

  /** In a policy within its tier capacities, admitting one key evicts at most one other,
      and the loop over the total capacity never evicts at all. */
  lemma TrimsOnce<K, O>(c: Config, s: Policy<K, O>)
    requires c.Sane()
    ensures |s.small| <= c.smallCapacity + 1 ==> TrimSmall(c, s) == SpillSmall(c, s)
    ensures |s.main| <= c.MainCapacity() + 1 ==> TrimMain(c, s) == SpillMain(c, s)
    ensures |s.small| <= c.smallCapacity + 1 && |s.main| <= c.MainCapacity() ==>
              TrimLive(c, TrimSmall(c, s)) == SpillSmall(c, s)
    ensures |s.main| <= c.MainCapacity() + 1 && |s.small| <= c.smallCapacity ==>
              TrimLive(c, TrimMain(c, s)) == SpillMain(c, s)
  {
  }

  /** Where the key goes: at most one other key is evicted, from the front of its tier. */
  function Moved<K(==), O>(c: Config, s: Policy<K, O>, owner: O, key: K, kind: Kind): Policy<K, O> {
    match kind
    case HitMain => s.(main := Without(s.main, key) + [key])
    case PromoteSmallToMain => SpillMain(c, s.(small := Without(s.small, key), main := s.main + [key]))
    case AdmitFromGhost =>
      SpillMain(c, s.(history := s.history + [Removed(key)], main := s.main + [key], owners := s.owners[key := owner]))
    case AdmitSmall => SpillSmall(c, s.(small := s.small + [key], owners := s.owners[key := owner]))
    case RejectFairnessBudget => s
    case FallbackBypass => s
  }

  function Bumped(c: Config, n: nat, bump: bool): nat {
    if bump then Saturating(n, c.maxCount) else n
  }

  function CountHits(signals: seq<Signal>): (n: nat)
    ensures n <= |signals|
  {
    if signals == [] then 0
    else CountHits(signals[..|signals| - 1]) + if signals[|signals| - 1].ghostHit then 1 else 0
  }

  function CountRejections(signals: seq<Signal>): (n: nat)
    ensures n <= |signals|
  {
    if signals == [] then 0
    else CountRejections(signals[..|signals| - 1]) + if signals[|signals| - 1].budgetRejected then 1 else 0
  }

  function Verdict(c: Config, signals: seq<Signal>): Option<FallbackReason> {
    if |signals| < c.fallbackWindow then None
    else if CountHits(signals) < c.minGhostHits then Some(SignalQualityInsufficient)
    else if CountRejections(signals) > c.maxBudgetRejections then Some(FairnessInstability)
    else None
  }

  function Counted<K, O>(c: Config, s: Policy<K, O>, kind: Kind, hit: bool): Policy<K, O> {
    s.(ghostHits := Bumped(c, s.ghostHits, hit),
       admissions := Bumped(c, s.admissions, kind == AdmitSmall || kind == AdmitFromGhost),
       promotions := Bumped(c, s.promotions, kind == PromoteSmallToMain),
       rejections := Bumped(c, s.rejections, kind == RejectFairnessBudget))
  }

  function Access<K(==), O(==)>(c: Config, s: Policy<K, O>, owner: O, key: K): Policy<K, O> {
    var kind := KindOf(c, s, owner, key);
    if kind == FallbackBypass then s
    else
      var hit := GhostHit(c, s, key);
      var signals := Latest(s.signals + [Signal(hit, kind == RejectFairnessBudget)], c.fallbackWindow);
      Counted(c, Moved(c, s, owner, key, kind), kind, hit).(signals := signals, reason := Verdict(c, signals))
  }

  function ClearFallback<K, O>(s: Policy<K, O>): Policy<K, O> {
    s.(reason := None, signals := [])
  }

  // ---- The invariant ----

  /** Every structural promise of the policy at once. */
  ghost predicate WellFormed<K, O>(c: Config, s: Policy<K, O>) {
    && Placed(c, s)
    && |s.small| <= c.smallCapacity && |s.main| <= c.MainCapacity()
    && |s.signals| <= c.fallbackWindow
    && s.gen <= c.maxCount
    && WithinBudget(c, s.owners)
  }

  /** The tiers and the ghost list are duplicate-free and disjoint, and exactly the live
      keys have an owner. */
  ghost predicate Placed<K, O>(c: Config, s: Policy<K, O>) {
    && Distinct(s.small) && Distinct(s.main) && Distinct(Ghosts(c, s))
    && (forall k | k in s.small :: k !in s.main)
    && (forall k | k in Ghosts(c, s) :: !Live(s, k))
    && (forall k | k in s.owners :: Live(s, k))
    && (forall k | k in s.small :: k in s.owners)
    && (forall k | k in s.main :: k in s.owners)
  }

  lemma OwnedByInsert<K, O>(owners: map<K, O>, key: K, owner: O, other: O)
    requires key !in owners
    ensures OwnedBy(owners[key := owner], other)
            == if other == owner then OwnedBy(owners, other) + {key} else OwnedBy(owners, other)
    ensures |OwnedBy(owners[key := owner], other)| == |OwnedBy(owners, other)| + if other == owner then 1 else 0
  {
    assert OwnedBy(owners[key := owner], other)
           == if other == owner then OwnedBy(owners, other) + {key} else OwnedBy(owners, other);
  }

  lemma OwnedByRemove<K, O>(owners: map<K, O>, key: K, other: O)
    requires key in owners
    ensures OwnedBy(owners - {key}, other) == OwnedBy(owners, other) - {key}
    ensures |OwnedBy(owners - {key}, other)| == |OwnedBy(owners, other)| - if other == owners[key] then 1 else 0
  {
    assert OwnedBy(owners - {key}, other) == OwnedBy(owners, other) - {key};
  }

  ghost predicate WithinBudget<K, O>(c: Config, owners: map<K, O>) {
    forall k | k in owners :: |OwnedBy(owners, owners[k])| <= c.maxEntriesPerOwner
  }

  lemma BudgetInsert<K, O>(c: Config, owners: map<K, O>, key: K, owner: O)
    requires WithinBudget(c, owners) && key !in owners && |OwnedBy(owners, owner)| < c.maxEntriesPerOwner
    ensures WithinBudget(c, owners[key := owner])
  {
    var after := owners[key := owner];
    forall k | k in after ensures |OwnedBy(after, after[k])| <= c.maxEntriesPerOwner {
      OwnedByInsert(owners, key, owner, after[k]);
    }
  }

  lemma BudgetRemove<K, O>(c: Config, owners: map<K, O>, key: K)
    requires WithinBudget(c, owners) && key in owners
    ensures WithinBudget(c, owners - {key})
  {
    forall k | k in owners - {key} ensures |OwnedBy(owners - {key}, owners[k])| <= c.maxEntriesPerOwner {
      OwnedByRemove(owners, key, owners[k]);
    }
  }

  /** What the ghost list holds after each kind of event. */
  lemma GhostsAfterRecord<K, O>(c: Config, s: Policy<K, O>, key: K)
    ensures forall k | k in Ghosts(c, Ghosted(c, s, key)) :: k == key || k in Ghosts(c, s)
    ensures Distinct(Ghosts(c, Ghosted(c, s, key)))
    ensures c.ghostCapacity >= 1 ==> key in Ghosts(c, Ghosted(c, s, key))
  {
    var h := if s.gen == c.maxCount then s.history + [Reset] else s.history;
    var after := h + [Recorded(key)];
    assert after[..|after| - 1] == h;
    BoundedMeaning(c.ghostCapacity, after);
    assert s.gen == c.maxCount ==> Bounded(c.ghostCapacity, h) == [];
    var listed := Relist(Bounded(c.ghostCapacity, h), key);
    assert Ghosts(c, Ghosted(c, s, key)) == Latest(listed, c.ghostCapacity);
    if c.ghostCapacity >= 1 {
      LatestKeepsLast(Without(Bounded(c.ghostCapacity, h), key), key, c.ghostCapacity);
    }
  }

  lemma GhostsAfterRemove<K>(capacity: nat, history: seq<Event<K>>, key: K)
    ensures Bounded(capacity, history + [Removed(key)]) == Without(Bounded(capacity, history), key)
    ensures Distinct(Bounded(capacity, history + [Removed(key)]))
    ensures forall k | k in Bounded(capacity, history + [Removed(key)]) :: k != key && k in Bounded(capacity, history)
  {
    var after := history + [Removed(key)];
    assert after[..|after| - 1] == history;
    BoundedMeaning(capacity, history);
    WithoutDistinct(Bounded(capacity, history), key);
  }

  // ---- Every access keeps the invariant ----

  lemma EvictKeeps<K, O>(c: Config, s: Policy<K, O>, fromMain: bool)
    requires Placed(c, s) && WithinBudget(c, s.owners) && s.gen <= c.maxCount && c.maxCount >= 1
    requires if fromMain then s.main != [] else s.small != []
    ensures var t := if fromMain then EvictMain(c, s) else EvictSmall(c, s);
            Placed(c, t) && WithinBudget(c, t.owners) && t.gen <= c.maxCount
  {
    var key := if fromMain then s.main[0] else s.small[0];
    var rest := (if fromMain then s.(main := s.main[1..]) else s.(small := s.small[1..])).(owners := s.owners - {key});
    FrontPlaced(c, s, fromMain);
    BudgetRemove(c, s.owners, key);
    hide Placed, WithinBudget, Live;
    GhostedPlaced(c, rest, key);
  }

  /** Without its front key a tier is still placed, and the key is live no more. */
  lemma FrontPlaced<K, O>(c: Config, s: Policy<K, O>, fromMain: bool)
    requires Placed(c, s) && if fromMain then s.main != [] else s.small != []
    ensures var key := if fromMain then s.main[0] else s.small[0];
            var rest := (if fromMain then s.(main := s.main[1..]) else s.(small := s.small[1..])).(owners := s.owners - {key});
            Placed(c, rest) && !Live(rest, key) && key in s.owners
  {
    hide Bounded;
    if fromMain {
      assert s.main == [s.main[0]] + s.main[1..];
    } else {
      assert s.small == [s.small[0]] + s.small[1..];
    }
  }

  lemma GhostedPlaced<K, O>(c: Config, s: Policy<K, O>, key: K)
    requires Placed(c, s) && !Live(s, key)
    ensures Placed(c, Ghosted(c, s, key))
  {
    hide Bounded, Distinct;
    GhostsAfterRecord(c, s, key);
  }

  lemma SpillKeeps<K, O>(c: Config, s: Policy<K, O>, main: bool)
    requires Placed(c, s) && WithinBudget(c, s.owners) && s.gen <= c.maxCount && c.Sane()
    requires if main then |s.main| <= c.MainCapacity() + 1 && |s.small| <= c.smallCapacity
             else |s.small| <= c.smallCapacity + 1 && |s.main| <= c.MainCapacity()
    ensures var t := if main then SpillMain(c, s) else SpillSmall(c, s);
            && Placed(c, t) && WithinBudget(c, t.owners) && t.gen <= c.maxCount
            && |t.small| <= c.smallCapacity && |t.main| <= c.MainCapacity()
  {
    hide Placed, WithinBudget;
    if main && |s.main| > c.MainCapacity() {
      EvictKeeps(c, s, true);
    }
    if !main && |s.small| > c.smallCapacity {
      EvictKeeps(c, s, false);
    }
  }

  /** After any access the tiers and the ghost list are disjoint and within capacity, and
      no owner is over budget. */
  lemma AccessKeeps<K, O>(c: Config, s: Policy<K, O>, owner: O, key: K)
    requires c.Sane() && WellFormed(c, s)
    ensures WellFormed(c, Access(c, s, owner, key))
  {
    var kind := KindOf(c, s, owner, key);
    MovedKeeps(c, s, owner, key, kind);
  }

  lemma ClearKeeps<K, O>(c: Config, s: Policy<K, O>)
    requires WellFormed(c, s)
    ensures WellFormed(c, ClearFallback(s))
  {
    hide Distinct, Bounded;
  }

  lemma MovedKeeps<K, O>(c: Config, s: Policy<K, O>, owner: O, key: K, kind: Kind)
    requires c.Sane() && WellFormed(c, s) && kind == KindOf(c, s, owner, key)
    ensures var t := Moved(c, s, owner, key, kind);
            && Placed(c, t) && WithinBudget(c, t.owners) && t.gen <= c.maxCount
            && |t.small| <= c.smallCapacity && |t.main| <= c.MainCapacity()
  {
    hide Bounded, OwnedBy, WithinBudget, SpillSmall, SpillMain, Without;
    match kind
    case HitMain => WithoutDistinct(s.main, key);
    case PromoteSmallToMain =>
      WithoutDistinct(s.small, key);
      SpillKeeps(c, s.(small := Without(s.small, key), main := s.main + [key]), true);
    case AdmitFromGhost =>
      GhostsAfterRemove(c.ghostCapacity, s.history, key);
      BudgetInsert(c, s.owners, key, owner);
      SpillKeeps(c, s.(history := s.history + [Removed(key)], main := s.main + [key], owners := s.owners[key := owner]), true);
    case AdmitSmall =>
      BudgetInsert(c, s.owners, key, owner);
      SpillKeeps(c, s.(small := s.small + [key], owners := s.owners[key := owner]), false);
    case RejectFairnessBudget =>
    case FallbackBypass =>
  }

  lemma MovedKeepsLatch<K, O>(c: Config, s: Policy<K, O>, owner: O, key: K, kind: Kind)
    ensures var t := Moved(c, s, owner, key, kind);
            && t.signals == s.signals && t.reason == s.reason
            && t.ghostHits == s.ghostHits && t.admissions == s.admissions
            && t.promotions == s.promotions && t.rejections == s.rejections
  {
  }

  /** The counters play no part in the decision or the movement. */
  lemma HitsIrrelevant<K, O>(c: Config, s: Policy<K, O>, owner: O, key: K, hits: nat)
    ensures WellFormed(c, s) ==> WellFormed(c, s.(ghostHits := hits))
    ensures KindOf(c, s.(ghostHits := hits), owner, key) == KindOf(c, s, owner, key)
    ensures Moved(c, s.(ghostHits := hits), owner, key, AdmitFromGhost)
            == Moved(c, s, owner, key, AdmitFromGhost).(ghostHits := hits)
  {
  }

  lemma RejectedStays<K, O>(c: Config, s: Policy<K, O>, owner: O, key: K)
    ensures Moved(c, s, owner, key, RejectFairnessBudget) == s
  {
  }
}
