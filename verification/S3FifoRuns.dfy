/** What holds over every sequence of accesses and latch clearings of the S3-FIFO policy. */
module S3FifoRuns {
  import opened Basics
  import opened Seqs
  import opened GhostList
  import opened S3FifoSpec

  datatype Op<K, O> = Touch(owner: O, key: K) | ClearLatch

  function Step<K(==), O(==)>(c: Config, s: Policy<K, O>, op: Op<K, O>): Policy<K, O> {
    match op
    case Touch(owner, key) => Access(c, s, owner, key)
    case ClearLatch => ClearFallback(s)
  }

  function Run<K(==), O(==)>(c: Config, ops: seq<Op<K, O>>): Policy<K, O> {
    if ops == [] then Initial()
    else Step(c, Run(c, ops[..|ops| - 1]), ops[|ops| - 1])
  }

  lemma {:induction false} RunKeeps<K, O>(c: Config, ops: seq<Op<K, O>>)
    requires c.Sane()
    ensures WellFormed(c, Run(c, ops))
  {
    if ops != [] {
      var older, op := ops[..|ops| - 1], ops[|ops| - 1];
      RunKeeps(c, older);
      match op
      case Touch(owner, key) => AccessKeeps(c, Run(c, older), owner, key);
      case ClearLatch =>
        assert Ghosts(c, Run(c, ops)) == Ghosts(c, Run(c, older));
    }
  }

  // ---- One access, seen from outside ----

  /** The one key an access evicts, if any. */
  function Victim<K(==), O(==)>(c: Config, s: Policy<K, O>, op: Op<K, O>): (v: Option<K>)
    ensures v.Some? ==> Live(s, v.value)
  {
    match op
    case ClearLatch => None
    case Touch(owner, key) =>
      match KindOf(c, s, owner, key)
      case AdmitSmall => if |s.small| >= c.smallCapacity && s.small != [] then Some(s.small[0]) else None
      case PromoteSmallToMain => if |s.main| >= c.MainCapacity() && s.main != [] then Some(s.main[0]) else None
      case AdmitFromGhost => if |s.main| >= c.MainCapacity() && s.main != [] then Some(s.main[0]) else None
      case HitMain => None
      case RejectFairnessBudget => None
      case FallbackBypass => None
  }

  /** The tiers after an access: the touched key moves to the back of its tier, and the
      victim, always the front of a tier, leaves. */
  lemma AccessTiers<K, O>(c: Config, s: Policy<K, O>, owner: O, key: K)
    requires c.Sane() && WellFormed(c, s)
    ensures var kind, t := KindOf(c, s, owner, key), Access(c, s, owner, key);
            var gone := if Victim(c, s, Touch(owner, key)).Some? then 1 else 0;
            match kind
            case AdmitSmall => t.small == s.small[gone..] + [key] && t.main == s.main
            case PromoteSmallToMain => t.small == Without(s.small, key) && t.main == s.main[gone..] + [key]
            case AdmitFromGhost => t.small == s.small && t.main == s.main[gone..] + [key]
            case HitMain => t.small == s.small && t.main == Without(s.main, key) + [key]
            case RejectFairnessBudget => t.small == s.small && t.main == s.main
            case FallbackBypass => t == s
  {
  }

  lemma {:induction false} AccessLive<K, O>(c: Config, s: Policy<K, O>, owner: O, key: K, k: K)
    requires c.Sane() && WellFormed(c, s)
    ensures var kind := KindOf(c, s, owner, key);
            Live(Access(c, s, owner, key), k) <==>
              (Live(s, k) || (k == key && (kind == AdmitSmall || kind == AdmitFromGhost)))
              && Victim(c, s, Touch(owner, key)) != Some(k)
  {
    hide Access, Bounded, WithinBudget, AtBudget, Without;
    AccessTiers(c, s, owner, key);
    WithoutDistinct(s.small, key);
    WithoutDistinct(s.main, key);
    if s.small != [] {
      assert s.small == [s.small[0]] + s.small[1..];
    }
    if s.main != [] {
      assert s.main == [s.main[0]] + s.main[1..];
    }
  }

  /** A new key is turned away while its owner has as many live keys as it may. */
  predicate TurnedAway<K(==), O(==)>(c: Config, s: Policy<K, O>, owner: O, key: K) {
    !Live(s, key) && |OwnedBy(s.owners, owner)| == c.maxEntriesPerOwner
  }

  /** `keys` with `key` at the back, and without its front if it was full. */
  function Pushed<K>(keys: seq<K>, key: K, capacity: nat): seq<K> {
    (if |keys| == capacity && keys != [] then keys[1..] else keys) + [key]
  }

  /** What an access does, told by where the key is: a main key goes to the back, a small one
      and a ghost to the back of the main tier, and a new one to the back of the small tier,
      unless the policy is latched or the owner has no room. */
  lemma AccessByPlace<K, O>(c: Config, s: Policy<K, O>, owner: O, key: K)
    requires c.Sane() && WellFormed(c, s)
    ensures var t := Access(c, s, owner, key);
            var mainRoom := c.liveCapacity - c.smallCapacity;
            if s.reason.Some? then t == s
            else if key in s.main then
              t.main == Without(s.main, key) + [key] && t.small == s.small && t.owners == s.owners
            else if key in s.small then
              && t.small == Without(s.small, key) && t.main == Pushed(s.main, key, mainRoom)
              && t.owners == if |s.main| == mainRoom then s.owners - {s.main[0]} else s.owners
            else if TurnedAway(c, s, owner, key) then
              t.small == s.small && t.main == s.main && t.owners == s.owners
            else if key in Ghosts(c, s) then
              && t.small == s.small && t.main == Pushed(s.main, key, mainRoom)
              && t.owners == if |s.main| == mainRoom then s.owners[key := owner] - {s.main[0]} else s.owners[key := owner]
            else
              && t.small == Pushed(s.small, key, c.smallCapacity) && t.main == s.main
              && t.owners == if |s.small| == c.smallCapacity then s.owners[key := owner] - {s.small[0]}
                             else s.owners[key := owner]
  {
    hide Bounded, Distinct, Verdict, Latest, Bumped, Without;
    OwnerWithinBudget(c, s, owner);
  }

  lemma OwnerWithinBudget<K, O>(c: Config, s: Policy<K, O>, owner: O)
    requires WithinBudget(c, s.owners)
    ensures |OwnedBy(s.owners, owner)| <= c.maxEntriesPerOwner
  {
    if k :| k in OwnedBy(s.owners, owner) {
      assert s.owners[k] == owner;
    } else {
      assert OwnedBy(s.owners, owner) == {};
    }
  }

  /** The ghost list after an access, while generations last: the accessed key leaves it when
      it becomes live, and the key evicted from a full tier becomes the newest. */
  lemma GhostsByPlace<K, O>(c: Config, s: Policy<K, O>, owner: O, key: K)
    requires c.Sane() && WellFormed(c, s) && s.gen < c.maxCount
    ensures var t := Access(c, s, owner, key);
            var kept := if Live(t, key) then Without(Ghosts(c, s), key) else Ghosts(c, s);
            var v := Victim(c, s, Touch(owner, key));
            Ghosts(c, t) == if v.Some? then Latest(Without(kept, v.value) + [v.value], c.ghostCapacity) else kept
  {
    GhostSteps(c, s, owner, key);
    AccessLive(c, s, owner, key, key);
    StepHistory(c, s, Touch(owner, key));
    hide Access, Bounded, Without, Latest, Distinct;
    if !Live(s, key) && Live(Access(c, s, owner, key), key) && key !in Ghosts(c, s) {
      WithoutAbsent(Ghosts(c, s), key);
    }
    if Live(s, key) {
      WithoutAbsent(Ghosts(c, s), key);
    }
  }

  lemma GhostSteps<K, O>(c: Config, s: Policy<K, O>, owner: O, key: K)
    requires c.Sane() && WellFormed(c, s) && s.gen < c.maxCount
    ensures var trail, v := Trail(c, s, Touch(owner, key)), Victim(c, s, Touch(owner, key));
            var kept := if KindOf(c, s, owner, key) == AdmitFromGhost then Without(Ghosts(c, s), key) else Ghosts(c, s);
            Bounded(c.ghostCapacity, s.history + trail)
            == if v.Some? then Latest(Without(kept, v.value) + [v.value], c.ghostCapacity) else kept
  {
    hide Bounded, Victim, Without, Latest;
    var v := Victim(c, s, Touch(owner, key));
    var removed := if KindOf(c, s, owner, key) == AdmitFromGhost then [Removed(key)] else [];
    var h := s.history + removed;
    assert removed == [] ==> h == s.history;
    GhostAppend(c.ghostCapacity, s.history, Removed(key));
    if v.Some? {
      assert s.history + Trail(c, s, Touch(owner, key)) == h + [Recorded(v.value)];
      GhostAppend(c.ghostCapacity, h, Recorded(v.value));
    } else {
      assert s.history + Trail(c, s, Touch(owner, key)) == h;
    }
  }

  lemma GhostAppend<K>(capacity: nat, history: seq<Event<K>>, e: Event<K>)
    ensures Bounded(capacity, history + [e])
            == if e.Recorded? then Latest(Without(Bounded(capacity, history), e.key) + [e.key], capacity)
               else if e.Removed? then Without(Bounded(capacity, history), e.key)
               else []
  {
    assert (history + [e])[..|history|] == history;
  }

  /** The key evicted is the front of the tier that was full. */
  lemma VictimByPlace<K, O>(c: Config, s: Policy<K, O>, owner: O, key: K)
    requires c.Sane() && WellFormed(c, s)
    ensures Victim(c, s, Touch(owner, key))
            == if s.reason.Some? || key in s.main then None
               else if key in s.small || (!TurnedAway(c, s, owner, key) && key in Ghosts(c, s)) then
                 if |s.main| == c.liveCapacity - c.smallCapacity then Some(s.main[0]) else None
               else if !TurnedAway(c, s, owner, key) && |s.small| == c.smallCapacity then Some(s.small[0])
               else None
  {
    hide Bounded, Distinct;
    OwnerWithinBudget(c, s, owner);
  }

  /** The counters: ghosts found, keys admitted, keys promoted and keys turned away. */
  lemma CountersByPlace<K, O>(c: Config, s: Policy<K, O>, owner: O, key: K)
    requires c.Sane() && WellFormed(c, s) && s.reason == None
    ensures var t, max := Access(c, s, owner, key), c.maxCount;
            && t.ghostHits == (if key in Ghosts(c, s) then Saturating(s.ghostHits, max) else s.ghostHits)
            && t.admissions == (if !Live(s, key) && !TurnedAway(c, s, owner, key) then Saturating(s.admissions, max)
                                else s.admissions)
            && t.promotions == (if key in s.small then Saturating(s.promotions, max) else s.promotions)
            && t.rejections == if TurnedAway(c, s, owner, key) then Saturating(s.rejections, max) else s.rejections
  {
    hide Bounded, Distinct, Verdict, Latest, Without;
    OwnerWithinBudget(c, s, owner);
    MovedKeepsLatch(c, s, owner, key, KindOf(c, s, owner, key));
  }

  /** The live keys never exceed the live capacity. */
  lemma LiveWithinCapacity<K, O>(c: Config, ops: seq<Op<K, O>>)
    requires c.Sane()
    ensures |Run(c, ops).small| + |Run(c, ops).main| <= c.liveCapacity
  {
    RunKeeps(c, ops);
    hide Run;
  }

  // ---- Recency ----

  /** The last access to `k` that was not bypassed, as a position in the run, or -1. */
  function LastTouch<K(==), O(==)>(c: Config, ops: seq<Op<K, O>>, k: K): (t: int)
    ensures -1 <= t < |ops|
  {
    if ops == [] then -1
    else
      var last := |ops| - 1;
      if ops[last].Touch? && ops[last].key == k && Run(c, ops[..last]).reason == None then last
      else LastTouch(c, ops[..last], k)
  }

  ghost predicate ByRecency<K, O>(c: Config, ops: seq<Op<K, O>>, keys: seq<K>) {
    forall i, j | 0 <= i < j < |keys| :: LastTouch(c, ops, keys[i]) < LastTouch(c, ops, keys[j])
  }

  lemma RecencyDrop<K, O>(c: Config, ops: seq<Op<K, O>>, keys: seq<K>, key: K)
    requires Distinct(keys) && ByRecency(c, ops, keys)
    ensures ByRecency(c, ops, Without(keys, key))
    ensures keys != [] ==> ByRecency(c, ops, keys[1..])
  {
    hide LastTouch, Without;
    if key in keys {
      var i :| 0 <= i < |keys| && keys[i] == key;
      WithoutAt(keys, i);
      var rest := keys[..i] + keys[i + 1..];
      forall a, b | 0 <= a < b < |rest| ensures LastTouch(c, ops, rest[a]) < LastTouch(c, ops, rest[b]) {
        assert rest[a] == keys[if a < i then a else a + 1];
        assert rest[b] == keys[if b < i then b else b + 1];
      }
    } else {
      WithoutAbsent(keys, key);
    }
  }

  /** Keys other than the touched one keep their time; the touched one becomes the latest. */
  lemma RecencyStep<K, O>(c: Config, ops: seq<Op<K, O>>, keys: seq<K>)
    requires ops != [] && ops[|ops| - 1].Touch? && Run(c, ops[..|ops| - 1]).reason == None
    requires ops[|ops| - 1].key !in keys && ByRecency(c, ops[..|ops| - 1], keys)
    ensures ByRecency(c, ops, keys)
    ensures ByRecency(c, ops, keys + [ops[|ops| - 1].key])
  {
    var last := |ops| - 1;
    var key := ops[last].key;
    hide Run;
    assert forall i | 0 <= i < |keys| :: LastTouch(c, ops, keys[i]) == LastTouch(c, ops[..last], keys[i]) < last;
    assert LastTouch(c, ops, key) == last;
    var longer := keys + [key];
    forall i, j | 0 <= i < j < |longer| ensures LastTouch(c, ops, longer[i]) < LastTouch(c, ops, longer[j]) {
      assert longer[i] == keys[i];
      if j < |keys| {
        assert longer[j] == keys[j];
      }
    }
  }

  lemma RecencyIdle<K, O>(c: Config, ops: seq<Op<K, O>>, keys: seq<K>)
    requires ops != [] && ByRecency(c, ops[..|ops| - 1], keys)
    requires ops[|ops| - 1].Touch? ==> Run(c, ops[..|ops| - 1]).reason.Some? || ops[|ops| - 1].key !in keys
    ensures ByRecency(c, ops, keys)
  {
    hide Run;
    assert forall i | 0 <= i < |keys| :: LastTouch(c, ops, keys[i]) == LastTouch(c, ops[..|ops| - 1], keys[i]);
  }

  /** Each live tier is always in order of its keys' last access. */
  lemma {:induction false} TiersByRecency<K, O>(c: Config, ops: seq<Op<K, O>>)
    requires c.Sane()
    ensures ByRecency(c, ops, Run(c, ops).small) && ByRecency(c, ops, Run(c, ops).main)
  {
    if ops != [] {
      var older, op := ops[..|ops| - 1], ops[|ops| - 1];
      var s := Run(c, older);
      TiersByRecency(c, older);
      RunKeeps(c, older);
      if op.Touch? {
        AccessRecency(c, ops, s, op.owner, op.key);
      } else {
        RecencyIdle(c, ops, s.small);
        RecencyIdle(c, ops, s.main);
      }
    }
  }

  lemma AccessRecency<K, O>(c: Config, ops: seq<Op<K, O>>, s: Policy<K, O>, owner: O, key: K)
    requires c.Sane() && ops != [] && ops[|ops| - 1] == Touch(owner, key)
    requires s == Run(c, ops[..|ops| - 1]) && WellFormed(c, s)
    requires ByRecency(c, ops[..|ops| - 1], s.small) && ByRecency(c, ops[..|ops| - 1], s.main)
    ensures ByRecency(c, ops, Access(c, s, owner, key).small) && ByRecency(c, ops, Access(c, s, owner, key).main)
  {
    hide Access, Bounded, ByRecency, Without, Run, WithinBudget, AtBudget;
    var older := ops[..|ops| - 1];
    AccessTiers(c, s, owner, key);
    RecencyDrop(c, older, s.small, key);
    RecencyDrop(c, older, s.main, key);
    WithoutDistinct(s.small, key);
    WithoutDistinct(s.main, key);
    match KindOf(c, s, owner, key)
    case AdmitSmall =>
      RecencyIdle(c, ops, s.main);
      RecencyStep(c, ops, s.small);
      if s.small != [] { RecencyStep(c, ops, s.small[1..]); }
    case PromoteSmallToMain =>
      RecencyIdle(c, ops, Without(s.small, key));
      RecencyStep(c, ops, s.main);
      if s.main != [] { RecencyStep(c, ops, s.main[1..]); }
    case AdmitFromGhost =>
      RecencyIdle(c, ops, s.small);
      RecencyStep(c, ops, s.main);
      if s.main != [] { RecencyStep(c, ops, s.main[1..]); }
    case HitMain =>
      RecencyIdle(c, ops, s.small);
      RecencyStep(c, ops, Without(s.main, key));
    case RejectFairnessBudget =>
      RecencyIdle(c, ops, s.small);
      RecencyIdle(c, ops, s.main);
    case FallbackBypass =>
      RecencyIdle(c, ops, s.small);
      RecencyIdle(c, ops, s.main);
  }

  /** Whatever key an access evicts was the least recently accessed one of its tier. */
  lemma EvictsLeastRecent<K, O>(c: Config, ops: seq<Op<K, O>>, owner: O, key: K, victim: K)
    requires c.Sane()
    requires Live(Run(c, ops), victim) && !Live(Run(c, ops + [Touch(owner, key)]), victim)
    ensures var s := Run(c, ops);
            || (victim in s.small && forall k | k in s.small && k != victim :: LastTouch(c, ops, victim) < LastTouch(c, ops, k))
            || (victim in s.main && forall k | k in s.main && k != victim :: LastTouch(c, ops, victim) < LastTouch(c, ops, k))
  {
    hide WellFormed, LastTouch, Access;
    var s := Run(c, ops);
    assert (ops + [Touch(owner, key)])[..|ops|] == ops;
    RunKeeps(c, ops);
    TiersByRecency(c, ops);
    AccessLive(c, s, owner, key, victim);
    assert Victim(c, s, Touch(owner, key)) == Some(victim);
    if s.small != [] && victim == s.small[0] {
      FrontIsLeast(c, ops, s.small);
    } else {
      FrontIsLeast(c, ops, s.main);
    }
  }

  lemma FrontIsLeast<K, O>(c: Config, ops: seq<Op<K, O>>, keys: seq<K>)
    requires ByRecency(c, ops, keys) && keys != []
    ensures forall k | k in keys && k != keys[0] :: LastTouch(c, ops, keys[0]) < LastTouch(c, ops, k)
  {
    hide LastTouch;
    forall k | k in keys && k != keys[0] ensures LastTouch(c, ops, keys[0]) < LastTouch(c, ops, k) {
      var j :| 0 <= j < |keys| && keys[j] == k;
      assert 0 < j;
    }
  }

  // ---- Ghosts ----

  /** The last access that evicted `k`, or -1 if there was none or `k` is live again. */
  function LastEvicted<K(==), O(==)>(c: Config, ops: seq<Op<K, O>>, k: K): (t: int)
    ensures -1 <= t < |ops|
  {
    if ops == [] then -1
    else
      var older, last := ops[..|ops| - 1], |ops| - 1;
      if Victim(c, Run(c, older), ops[last]) == Some(k) then last
      else if Live(Run(c, ops), k) then -1
      else LastEvicted(c, older, k)
  }

  /** The keys evicted after position `t`. */
  function EvictedSince<K(==), O(==)>(c: Config, ops: seq<Op<K, O>>, t: int): set<K> {
    if |ops| - 1 <= t || ops == [] then {}
    else
      var older := ops[..|ops| - 1];
      var victim := Victim(c, Run(c, older), ops[|ops| - 1]);
      EvictedSince(c, older, t) + if victim.Some? then {victim.value} else {}
  }

  /** An eviction that finds the generations used up empties the ghost list first. */
  predicate Restarts<K(==), O(==)>(c: Config, s: Policy<K, O>, op: Op<K, O>) {
    Victim(c, s, op).Some? && s.gen == c.maxCount
  }

  /** Whether the ghost list was emptied after position `t`. */
  predicate RestartedSince<K(==), O(==)>(c: Config, ops: seq<Op<K, O>>, t: int) {
    if |ops| - 1 <= t || ops == [] then false
    else
      var older := ops[..|ops| - 1];
      RestartedSince(c, older, t) || Restarts(c, Run(c, older), ops[|ops| - 1])
  }

  lemma {:induction false} RestartedEarlier<K, O>(c: Config, ops: seq<Op<K, O>>, t: int, u: int)
    requires t <= u && RestartedSince(c, ops, u)
    ensures RestartedSince(c, ops, t)
  {
    hide Restarts, Run;
    if RestartedSince(c, ops[..|ops| - 1], u) {
      RestartedEarlier(c, ops[..|ops| - 1], t, u);
    }
  }

  /** Runs shorter than the generations last never restart the list. */
  lemma {:induction false} ShortRunsNeverRestart<K, O>(c: Config, ops: seq<Op<K, O>>, t: int)
    requires c.Sane() && |ops| <= c.maxCount
    ensures !RestartedSince(c, ops, t)
  {
    hide Run, Victim;
    if ops != [] {
      ShortRunsNeverRestart(c, ops[..|ops| - 1], t);
      GenBound(c, ops[..|ops| - 1]);
    }
  }

  /** The ghost events of one access. */
  function Trail<K(==), O(==)>(c: Config, s: Policy<K, O>, op: Op<K, O>): seq<Event<K>> {
    (if op.Touch? && KindOf(c, s, op.owner, op.key) == AdmitFromGhost then [Removed(op.key)] else [])
    + (if Victim(c, s, op).Some? then
         (if Restarts(c, s, op) then [Reset] else []) + [Recorded(Victim(c, s, op).value)]
       else [])
  }

  lemma StepHistory<K, O>(c: Config, s: Policy<K, O>, op: Op<K, O>)
    requires c.Sane() && WellFormed(c, s)
    ensures Step(c, s, op).history == s.history + Trail(c, s, op)
  {
    hide Bounded, WithinBudget, AtBudget, Distinct, Verdict, Latest, Bumped;
  }

  lemma StepGen<K, O>(c: Config, s: Policy<K, O>, op: Op<K, O>)
    requires c.Sane() && WellFormed(c, s)
    ensures Step(c, s, op).gen <= s.gen + 1
  {
    hide Bounded, WithinBudget, AtBudget, Distinct, Placed;
  }

  lemma {:induction false} GenBound<K, O>(c: Config, ops: seq<Op<K, O>>)
    requires c.Sane()
    ensures Run(c, ops).gen <= |ops|
  {
    if ops != [] {
      GenBound(c, ops[..|ops| - 1]);
      RunKeeps(c, ops[..|ops| - 1]);
      StepGen(c, Run(c, ops[..|ops| - 1]), ops[|ops| - 1]);
    }
  }

  lemma StepLive<K, O>(c: Config, s: Policy<K, O>, op: Op<K, O>, k: K)
    requires c.Sane() && WellFormed(c, s) && !Live(Step(c, s, op), k)
    ensures Live(s, k) <==> Victim(c, s, op) == Some(k)
    ensures Removed(k) in Trail(c, s, op) ==> Live(Step(c, s, op), k) || Victim(c, s, op) == Some(k)
  {
    hide Access, WellFormed, Bounded;
    if op.Touch? {
      AccessLive(c, s, op.owner, op.key, k);
    }
  }

  /** `LastRecorded` is unaffected by events about other keys. */
  lemma {:induction false} RecordedElsewhere<K>(history: seq<Event<K>>, trail: seq<Event<K>>, k: K)
    requires Reset !in trail && Recorded(k) !in trail && Removed(k) !in trail
    ensures LastRecorded(history + trail, k) == LastRecorded(history, k)
  {
    if trail == [] {
      assert history + trail == history;
    } else {
      var shorter := trail[..|trail| - 1];
      assert trail == shorter + [trail[|trail| - 1]];
      assert (history + trail)[..|history + trail| - 1] == history + shorter;
      RecordedElsewhere(history, shorter, k);
    }
  }

  /** For a key that is not live, the policy's evictions and the ghost history agree. */
  ghost predicate Agrees<K, O>(c: Config, ops: seq<Op<K, O>>, k: K) {
    var h := Run(c, ops).history;
    var e, r := LastEvicted(c, ops, k), LastRecorded(h, k);
    && (r >= 0 <==> e >= 0 && !RestartedSince(c, ops, e))
    && (r >= 0 ==> RecordedKeys(h[r + 1..]) <= EvictedSince(c, ops, e))
  }

  lemma EvictionStep<K, O>(c: Config, ops: seq<Op<K, O>>, k: K)
    requires ops != [] && !Live(Run(c, ops), k)
    ensures var older, op := ops[..|ops| - 1], ops[|ops| - 1];
            var s := Run(c, older);
            var v, e := Victim(c, s, op), LastEvicted(c, older, k);
            if v == Some(k) then
              && LastEvicted(c, ops, k) == |ops| - 1 && !RestartedSince(c, ops, |ops| - 1)
            else
              && LastEvicted(c, ops, k) == e
              && (RestartedSince(c, ops, e) <==> RestartedSince(c, older, e) || Restarts(c, s, op))
              && EvictedSince(c, ops, e) == EvictedSince(c, older, e) + if v.Some? then {v.value} else {}
  {
    hide Run, Victim, Restarts;
  }

  lemma {:induction false} KeyAgrees<K, O>(c: Config, ops: seq<Op<K, O>>, k: K)
    requires c.Sane() && !Live(Run(c, ops), k)
    ensures Agrees(c, ops, k)
  {
    if ops != [] {
      hide Run, WellFormed, Trail, Victim, LastRecorded, Restarts, RecordedKeys;
      var older, op := ops[..|ops| - 1], ops[|ops| - 1];
      var s := Run(c, older);
      RunUnfold(c, ops);
      RunKeeps(c, older);
      StepHistory(c, s, op);
      StepLive(c, s, op, k);
      EvictionStep(c, ops, k);
      hide LastEvicted, RestartedSince, EvictedSince;
      if Victim(c, s, op) == Some(k) {
        VictimRecorded(c, s, op, k);
        NoneRecorded(Run(c, ops).history);
      } else {
        KeyAgrees(c, older, k);
        if Restarts(c, s, op) {
          RestartForgets(c, s, op, k);
        } else {
          TrailElsewhere(c, s, op, k);
          RecordedElsewhere(s.history, Trail(c, s, op), k);
          TrailRecords(c, s, op, LastRecorded(s.history, k));
        }
      }
    }
  }

  lemma NoneRecorded<K>(history: seq<Event<K>>)
    ensures RecordedKeys(history[|history|..]) == {}
  {
  }

  lemma TrailRecords<K, O>(c: Config, s: Policy<K, O>, op: Op<K, O>, at: int)
    requires -1 <= at < |s.history|
    ensures RecordedKeys((s.history + Trail(c, s, op))[at + 1..])
            <= RecordedKeys(s.history[at + 1..])
               + if Victim(c, s, op).Some? then {Victim(c, s, op).value} else {}
  {
    assert (s.history + Trail(c, s, op))[at + 1..] == s.history[at + 1..] + Trail(c, s, op);
  }

  lemma RestartForgets<K, O>(c: Config, s: Policy<K, O>, op: Op<K, O>, k: K)
    requires Restarts(c, s, op) && Victim(c, s, op) != Some(k)
    ensures LastRecorded(s.history + Trail(c, s, op), k) == -1
  {
    var h, v := s.history + Trail(c, s, op), Victim(c, s, op).value;
    var n := |h| - 1;
    assert h[n] == Recorded(v) && h[n - 1] == Reset;
    assert h[..n][n - 1] == Reset;
    assert LastRecorded(h[..n], k) == -1;
  }

  lemma RunUnfold<K, O>(c: Config, ops: seq<Op<K, O>>)
    requires ops != []
    ensures Run(c, ops) == Step(c, Run(c, ops[..|ops| - 1]), ops[|ops| - 1])
  {
  }

  lemma VictimRecorded<K, O>(c: Config, s: Policy<K, O>, op: Op<K, O>, k: K)
    requires Victim(c, s, op) == Some(k)
    ensures LastRecorded(s.history + Trail(c, s, op), k) == |s.history + Trail(c, s, op)| - 1
  {
    var h := s.history + Trail(c, s, op);
    assert h[|h| - 1] == Recorded(k);
  }

  lemma TrailElsewhere<K, O>(c: Config, s: Policy<K, O>, op: Op<K, O>, k: K)
    requires !Restarts(c, s, op) && Victim(c, s, op) != Some(k)
    requires Removed(k) !in Trail(c, s, op)
    ensures Reset !in Trail(c, s, op) && Recorded(k) !in Trail(c, s, op)
    ensures forall e | e in Trail(c, s, op) && e.Recorded? :: Victim(c, s, op) == Some(e.key)
  {
  }

  lemma {:induction false} PairAgrees<K, O>(c: Config, ops: seq<Op<K, O>>, a: K, b: K)
    requires c.Sane() && !Live(Run(c, ops), a) && !Live(Run(c, ops), b)
    requires 0 <= LastRecorded(Run(c, ops).history, a) < LastRecorded(Run(c, ops).history, b)
    ensures LastEvicted(c, ops, a) < LastEvicted(c, ops, b)
  {
    if ops != [] {
      hide Run, WellFormed, Trail, Victim, LastRecorded, Restarts;
      var older, op := ops[..|ops| - 1], ops[|ops| - 1];
      var s := Run(c, older);
      RunUnfold(c, ops);
      RunKeeps(c, older);
      StepHistory(c, s, op);
      StepLive(c, s, op, a);
      StepLive(c, s, op, b);
      if Victim(c, s, op) == Some(a) {
        VictimRecorded(c, s, op, a);
      } else if Restarts(c, s, op) {
        RestartForgets(c, s, op, a);
      } else if Victim(c, s, op) != Some(b) {
        TrailElsewhere(c, s, op, a);
        RecordedElsewhere(s.history, Trail(c, s, op), a);
        TrailElsewhere(c, s, op, b);
        RecordedElsewhere(s.history, Trail(c, s, op), b);
        PairAgrees(c, older, a, b);
      }
    }
  }

  /** The ghost list is a list of evicted keys in order of their latest eviction, cut from its
      oldest end: every evicted key it lacks was evicted before every key it holds. */
  lemma GhostsByEviction<K, O>(c: Config, ops: seq<Op<K, O>>)
    requires c.Sane()
    ensures var ghosts := Ghosts(c, Run(c, ops));
            && Distinct(ghosts) && |ghosts| <= c.ghostCapacity
            && (forall k | k in ghosts :: !Live(Run(c, ops), k) && LastEvicted(c, ops, k) >= 0)
            && (forall i, j | 0 <= i < j < |ghosts| :: LastEvicted(c, ops, ghosts[i]) < LastEvicted(c, ops, ghosts[j]))
            && (forall k, g | LastEvicted(c, ops, k) >= 0 && k !in ghosts && g in ghosts ::
                  LastEvicted(c, ops, k) < LastEvicted(c, ops, g))
  {
    hide Run, LastEvicted, LastRecorded, Bounded, RestartedSince, WellFormed;
    var s := Run(c, ops);
    var ghosts := Ghosts(c, s);
    GhostsAreGone(c, ops);
    BoundedMeaning(c.ghostCapacity, s.history);
    BoundedIsSuffix(c.ghostCapacity, s.history);
    forall k | k in ghosts ensures LastEvicted(c, ops, k) >= 0 {
      KeyAgrees(c, ops, k);
    }
    forall i, j | 0 <= i < j < |ghosts| ensures LastEvicted(c, ops, ghosts[i]) < LastEvicted(c, ops, ghosts[j]) {
      PairAgrees(c, ops, ghosts[i], ghosts[j]);
    }
    forall k, g | LastEvicted(c, ops, k) >= 0 && k !in ghosts && g in ghosts
      ensures LastEvicted(c, ops, k) < LastEvicted(c, ops, g)
    {
      MissingIsOlder(c, ops, k, g);
    }
  }

  lemma GhostsAreGone<K, O>(c: Config, ops: seq<Op<K, O>>)
    requires c.Sane()
    ensures forall k | k in Ghosts(c, Run(c, ops)) :: !Live(Run(c, ops), k)
  {
    RunKeeps(c, ops);
    hide Run, Bounded;
  }

  lemma MissingIsOlder<K, O>(c: Config, ops: seq<Op<K, O>>, k: K, g: K)
    requires c.Sane() && LastEvicted(c, ops, k) >= 0
    requires k !in Ghosts(c, Run(c, ops)) && g in Ghosts(c, Run(c, ops))
    ensures LastEvicted(c, ops, k) < LastEvicted(c, ops, g)
  {
    EvictedIsNotLive(c, ops, k);
    hide Run, LastEvicted, LastRecorded, Bounded, RestartedSince, EvictedSince;
    var h := Run(c, ops).history;
    GhostsAreGone(c, ops);
    BoundedMeaning(c.ghostCapacity, h);
    KeyAgrees(c, ops, k);
    KeyAgrees(c, ops, g);
    if LastRecorded(h, k) >= 0 {
      CutIsOlder(c.ghostCapacity, h, k, g);
      PairAgrees(c, ops, k, g);
    } else if LastEvicted(c, ops, g) <= LastEvicted(c, ops, k) {
      RestartedEarlier(c, ops, LastEvicted(c, ops, g), LastEvicted(c, ops, k));
    }
  }

  lemma CutIsOlder<K>(capacity: nat, history: seq<Event<K>>, k: K, g: K)
    requires LastRecorded(history, k) >= 0 && k !in Bounded(capacity, history) && g in Bounded(capacity, history)
    ensures LastRecorded(history, k) < LastRecorded(history, g)
  {
    hide Bounded, Unbounded, LastRecorded, IsSuffix;
    BoundedIsSuffix(capacity, history);
    UnboundedMeaning(history);
    var b, u := Bounded(capacity, history), Unbounded(history);
    var i :| 0 <= i < |u| && u[i] == k;
    var j :| 0 <= j < |b| && b[j] == g;
    SuffixAt(b, u, j);
    InSuffix(b, u, i);
  }

  lemma SuffixAt<T>(b: seq<T>, u: seq<T>, j: nat)
    requires IsSuffix(b, u) && j < |b|
    ensures u[|u| - |b| + j] == b[j] && |b| <= |u|
  {
  }

  lemma InSuffix<T>(b: seq<T>, u: seq<T>, i: nat)
    requires IsSuffix(b, u) && i < |u|
    ensures |u| - |b| <= i ==> u[i] in b
  {
    if |u| - |b| <= i {
      assert u[i] == b[i - (|u| - |b|)];
    }
  }

  /** An evicted key stays a ghost until it is live again, until the generations run out, or
      until `ghostCapacity` other keys have been evicted after it. */
  lemma GhostRetention<K, O>(c: Config, ops: seq<Op<K, O>>, k: K)
    requires c.Sane() && LastEvicted(c, ops, k) >= 0
    ensures || k in Ghosts(c, Run(c, ops))
            || RestartedSince(c, ops, LastEvicted(c, ops, k))
            || |EvictedSince(c, ops, LastEvicted(c, ops, k)) - {k}| >= c.ghostCapacity
  {
    EvictedIsNotLive(c, ops, k);
    hide Run, LastEvicted, LastRecorded, Bounded, EvictedSince, RestartedSince;
    var h := Run(c, ops).history;
    KeyAgrees(c, ops, k);
    if !RestartedSince(c, ops, LastEvicted(c, ops, k)) {
      Retention(c.ghostCapacity, h, k);
      SubsetCard(OthersSince(h, LastRecorded(h, k), k), EvictedSince(c, ops, LastEvicted(c, ops, k)) - {k});
    }
  }

  lemma EvictedIsNotLive<K, O>(c: Config, ops: seq<Op<K, O>>, k: K)
    requires c.Sane() && LastEvicted(c, ops, k) >= 0
    ensures !Live(Run(c, ops), k)
  {
    hide Access, WellFormed, Bounded;
    var older, op := ops[..|ops| - 1], ops[|ops| - 1];
    RunKeeps(c, older);
    if op.Touch? {
      AccessLive(c, Run(c, older), op.owner, op.key, k);
    }
  }

  // ---- The fallback latch ----

  /** The signals of all accesses since the latch was last cleared: whether the key was a
      ghost, and whether it was turned away. */
  function SignalsSince<K(==), O(==)>(c: Config, ops: seq<Op<K, O>>): seq<Signal> {
    if ops == [] then []
    else
      var older, op := ops[..|ops| - 1], ops[|ops| - 1];
      var s := Run(c, older);
      match op
      case ClearLatch => []
      case Touch(owner, key) =>
        if s.reason.Some? then SignalsSince(c, older)
        else SignalsSince(c, older) + [Signal(key in Ghosts(c, s), TurnedAway(c, s, owner, key))]
  }

  function HitPositions(signals: seq<Signal>): set<nat> {
    set i: nat | i < |signals| && signals[i].ghostHit
  }

  function RefusalPositions(signals: seq<Signal>): set<nat> {
    set i: nat | i < |signals| && signals[i].budgetRejected
  }

  lemma {:induction false} CountsArePositions(signals: seq<Signal>)
    ensures CountHits(signals) == |HitPositions(signals)|
    ensures CountRejections(signals) == |RefusalPositions(signals)|
  {
    if signals == [] {
      assert HitPositions(signals) == {} && RefusalPositions(signals) == {};
    } else {
      CountsArePositions(signals[..|signals| - 1]);
      PositionsLast(signals);
      hide HitPositions, RefusalPositions;
    }
  }

  lemma PositionsLast(signals: seq<Signal>)
    requires signals != []
    ensures var last := |signals| - 1;
            && last !in HitPositions(signals[..last]) && last !in RefusalPositions(signals[..last])
            && HitPositions(signals) == HitPositions(signals[..last]) + (if signals[last].ghostHit then {last} else {})
            && RefusalPositions(signals)
               == RefusalPositions(signals[..last]) + if signals[last].budgetRejected then {last} else {}
  {
    var last := |signals| - 1;
    assert forall i: nat | i < last :: signals[..last][i] == signals[i];
  }

  predicate TooFewHits(c: Config, window: seq<Signal>) {
    |HitPositions(window)| < c.minGhostHits
  }

  predicate TooManyRefusals(c: Config, window: seq<Signal>) {
    |RefusalPositions(window)| > c.maxBudgetRejections
  }

  /** Every full window of consecutive accesses has enough ghost hits and few enough refusals. */
  ghost predicate Healthy(c: Config, signals: seq<Signal>) {
    forall end | c.fallbackWindow <= end <= |signals| :: WindowHealthy(c, Window(c, signals, end))
  }

  predicate WindowHealthy(c: Config, window: seq<Signal>) {
    !TooFewHits(c, window) && !TooManyRefusals(c, window)
  }

  /** The window of signals that ends before position `end`. */
  function Window(c: Config, signals: seq<Signal>, end: nat): seq<Signal>
    requires c.fallbackWindow <= end <= |signals|
  {
    signals[end - c.fallbackWindow..end]
  }

  /** The latch is open exactly while every full window since the last clearing is healthy;
      when it closes, the last window is the first unhealthy one. */
  lemma {:induction false} LatchIsExact<K, O>(c: Config, ops: seq<Op<K, O>>)
    requires c.Sane()
    ensures var s, signals := Run(c, ops), SignalsSince(c, ops);
            && s.signals == Latest(signals, c.fallbackWindow)
            && s.reason == Verdict(c, s.signals)
            && (s.reason == None <==> Healthy(c, signals))
            && (s.reason.Some? ==> signals != [] && Healthy(c, signals[..|signals| - 1]))
  {
    if ops != [] {
      hide WellFormed, KindOf, GhostHit, Moved, Bounded, CountHits, CountRejections, Verdict, Healthy, TooFewHits,
           TooManyRefusals, TurnedAway;
      var older, op := ops[..|ops| - 1], ops[|ops| - 1];
      LatchIsExact(c, older);
      RunKeeps(c, older);
      var s := Run(c, older);
      if op.Touch? && s.reason == None {
        BypassIffLatched(c, s, op.owner, op.key);
        SignalByPlace(c, s, op.owner, op.key);
        var before, after := SignalsSince(c, older), SignalsSince(c, ops);
        assert after == before + [after[|before|]];
        LatestStep(before, after[|before|], c.fallbackWindow);
        HealthStep(c, before, after[|before|]);
        assert after[..|before|] == before;
      } else {
        NothingUnhealthy(c);
      }
    } else {
      VerdictByCounts(c, []);
    }
  }

  /** The reason is too few ghost hits in the last window or, if there were enough, too many
      refusals. */
  lemma LatchReason<K, O>(c: Config, ops: seq<Op<K, O>>)
    requires c.Sane() && Run(c, ops).reason.Some?
    ensures var s := Run(c, ops);
            && s.signals == Latest(SignalsSince(c, ops), c.fallbackWindow) && |s.signals| == c.fallbackWindow
            && (if TooFewHits(c, s.signals) then s.reason.value == SignalQualityInsufficient
                else TooManyRefusals(c, s.signals) && s.reason.value == FairnessInstability)
  {
    LatchIsExact(c, ops);
    VerdictByCounts(c, Run(c, ops).signals);
    RunKeeps(c, ops);
    hide Run, SignalsSince, Verdict, TooFewHits, TooManyRefusals, Healthy;
  }

  lemma NothingUnhealthy(c: Config)
    requires c.Sane()
    ensures Healthy(c, []) && Verdict(c, []) == None
  {
  }

  lemma VerdictByCounts(c: Config, signals: seq<Signal>)
    ensures |signals| < c.fallbackWindow ==> Verdict(c, signals) == None
    ensures |signals| >= c.fallbackWindow ==>
              Verdict(c, signals) == if TooFewHits(c, signals) then Some(SignalQualityInsufficient)
                                     else if TooManyRefusals(c, signals) then Some(FairnessInstability)
                                     else None
  {
    CountsArePositions(signals);
  }

  lemma SignalByPlace<K, O>(c: Config, s: Policy<K, O>, owner: O, key: K)
    requires c.Sane() && WellFormed(c, s) && s.reason == None
    ensures GhostHit(c, s, key) <==> key in Ghosts(c, s)
    ensures KindOf(c, s, owner, key) == RejectFairnessBudget <==> TurnedAway(c, s, owner, key)
  {
    hide Bounded, Distinct;
    OwnerWithinBudget(c, s, owner);
  }

  lemma BypassIffLatched<K, O>(c: Config, s: Policy<K, O>, owner: O, key: K)
    ensures KindOf(c, s, owner, key) == FallbackBypass <==> s.reason.Some?
  {
  }

  lemma LatestStep<T>(s: seq<T>, x: T, n: nat)
    requires n >= 1
    ensures Latest(Latest(s, n) + [x], n) == Latest(s + [x], n)
  {
  }

  lemma HealthStep(c: Config, before: seq<Signal>, x: Signal)
    requires c.fallbackWindow >= 1 && Healthy(c, before)
    ensures Healthy(c, before + [x]) <==> Verdict(c, Latest(before + [x], c.fallbackWindow)) == None
  {
    var after, w := before + [x], c.fallbackWindow;
    VerdictByCounts(c, Latest(after, w));
    hide Verdict, TooFewHits, TooManyRefusals;
    forall end | w <= end <= |before| ensures WindowHealthy(c, Window(c, after, end)) {
      assert Window(c, after, end) == Window(c, before, end);
    }
    if |after| >= w {
      assert Latest(after, w) == Window(c, after, |after|);
    }
  }

  lemma LatchedAccess<K, O>(c: Config, s: Policy<K, O>, owner: O, key: K)
    requires s.reason.Some?
    ensures Access(c, s, owner, key) == s
  {
  }

  /** Once latched, the policy does not change at all until the latch is cleared. */
  lemma {:induction false} LatchedStays<K, O>(c: Config, ops: seq<Op<K, O>>, more: seq<Op<K, O>>)
    requires Run(c, ops).reason.Some? && forall op | op in more :: op.Touch?
    ensures Run(c, ops + more) == Run(c, ops)
  {
    hide Run, Access;
    if more == [] {
      assert ops + more == ops;
    } else {
      var shorter, op := more[..|more| - 1], more[|more| - 1];
      LatchedStays(c, ops, shorter);
      assert (ops + more)[..|ops + more| - 1] == ops + shorter;
      RunUnfold(c, ops + more);
      assert op in more;
      LatchedAccess(c, Run(c, ops), op.owner, op.key);
    }
  }
}
