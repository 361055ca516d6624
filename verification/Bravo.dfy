/** The reader/writer bias policy of the hostcall queue: contention windows are classified,
    and the classes drive a three-mode machine. */
module Bravo {
  import opened Basics

  const MAX32: nat := 0xFFFF_FFFF
  const MAX64: nat := 0xFFFF_FFFF_FFFF_FFFF

  datatype Mode = Balanced | ReadBiased | WriterRecovery
  datatype Signature = InsufficientSamples | ReadDominant | MixedContention | WriterStarvationRisk | WriteDominant
  datatype Sample = Sample(readAcquires: nat, writeAcquires: nat, writeWait: nat, writeTimeouts: nat)
  datatype Config = Config(minTotal: nat, readDominant: nat, mixedFloor: nat, mixedCeiling: nat,
                           starvationWait: nat, starvationTimeouts: nat, maxReadBias: nat, recovery: nat)

  // ---- Classifying a window ----

  function Total(s: Sample): nat {
    Min(s.readAcquires + s.writeAcquires, MAX64)
  }

  function Permille(a: nat, t: nat): (q: nat)
    requires t > 0
    ensures q * t <= a * 1000 < (q + 1) * t
  {
    Divided(a * 1000, t)
  }

  function Divided(a: nat, t: nat): (q: nat)
    requires t > 0
    ensures q * t <= a < (q + 1) * t
  {
    assert a / t >= 0;
    a / t
  }

  function Ratio(s: Sample): nat {
    if Total(s) == 0 then 0
    else
      var ratio := Permille(s.readAcquires, Total(s));
      if ratio <= MAX32 then ratio else 1000
  }

  function Classify(s: Sample, c: Config): Signature {
    if Total(s) < c.minTotal then InsufficientSamples
    else if s.writeWait >= c.starvationWait || s.writeTimeouts >= c.starvationTimeouts then WriterStarvationRisk
    else if Ratio(s) >= Min(c.readDominant, 1000) then ReadDominant
    else
      var floor := Min(c.mixedFloor, 1000);
      var ceiling := if c.mixedCeiling < floor then floor else Min(c.mixedCeiling, 1000);
      if floor <= Ratio(s) <= ceiling then MixedContention else WriteDominant
  }

  /** More reads and fewer writes never lower the ratio, even where the total saturates, and
      it is never above 1000. */
  lemma RatioMonotone(s: Sample, t: Sample)
    requires s.readAcquires <= t.readAcquires <= MAX64 && t.writeAcquires <= s.writeAcquires
    ensures Ratio(s) <= Ratio(t) <= 1000
  {
    hide Permille;
    RatioBound(s);
    RatioBound(t);
    if Total(s) > 0 && t.readAcquires > 0 {
      CrossProducts(s.readAcquires, s.writeAcquires, t.readAcquires, t.writeAcquires, MAX64);
      PermilleMonotone(s.readAcquires, Total(s), t.readAcquires, Total(t));
    }
  }

  lemma CrossProducts(a: nat, b: nat, c: nat, d: nat, max: nat)
    requires a <= c <= max && d <= b
    ensures a * Min(c + d, max) <= c * Min(a + b, max)
  {
    if a + b > max {
      Products(a, c, Min(c + d, max), max);
    } else {
      Products(a, a, Min(c + d, max), c + d);
      Products(a, c, d, b);
      assert a * (c + d) == a * c + a * d;
      assert c * (a + b) == a * c + c * b;
    }
  }

  lemma Products(a: nat, b: nat, c: nat, d: nat)
    requires a <= b && c <= d
    ensures a * c <= b * d
  {
    assert a * c <= a * d;
    assert a * d <= b * d;
  }

  lemma RatioBound(s: Sample)
    requires s.readAcquires <= MAX64
    ensures Ratio(s) <= 1000
    ensures Total(s) > 0 ==> Ratio(s) == Permille(s.readAcquires, Total(s))
  {
    hide Permille;
    if Total(s) > 0 {
      PermilleBound(s.readAcquires, Total(s));
    }
  }

  lemma PermilleBound(a: nat, t: nat)
    requires a <= t && t > 0
    ensures Permille(a, t) <= 1000
  {
    hide Permille;
    Products(a, t, 1000, 1000);
    CancelLess(Permille(a, t), 1001, t);
  }

  lemma PermilleMonotone(a: nat, s: nat, b: nat, t: nat)
    requires s > 0 && t > 0 && a * t <= b * s
    ensures Permille(a, s) <= Permille(b, t)
  {
    hide Permille;
    var p, q := Permille(a, s), Permille(b, t);
    Products(p * s, a * 1000, t, t);
    Products(b * 1000 + 1, (q + 1) * t, s, s);
    assert p * s * t <= (a * t) * 1000;
    assert (b * s) * 1000 < (q + 1) * t * s;
    assert p * (s * t) == p * s * t && (q + 1) * (s * t) == (q + 1) * t * s;
    CancelLess(p, q + 1, s * t);
  }

  lemma CancelLess(p: nat, q: nat, m: nat)
    requires p * m < q * m
    ensures p < q
  {
    if q <= p {
      Products(q, p, m, m);
    }
  }

  /** A window that reads dominate still does so with more reads and fewer writes. */
  lemma DominanceIsMonotone(s: Sample, t: Sample, c: Config)
    requires s.readAcquires <= t.readAcquires <= MAX64 && t.writeAcquires <= s.writeAcquires
    requires t.writeWait <= s.writeWait && t.writeTimeouts <= s.writeTimeouts
    requires Classify(s, c).ReadDominant?
    ensures Classify(t, c) == if Total(t) < c.minTotal then InsufficientSamples else ReadDominant
  {
    RatioMonotone(s, t);
  }

  /** The class of a window in terms of its counts: too few operations come first, then a
      waiting or timed-out writer, then the share of reads in thousandths against the three
      thresholds, none of which counts above 1000. */
  lemma ClassifyIff(s: Sample, c: Config)
    requires s.readAcquires <= MAX64
    ensures var total := if s.readAcquires + s.writeAcquires <= MAX64 then s.readAcquires + s.writeAcquires else MAX64;
            var dominant := if c.readDominant <= 1000 then c.readDominant else 1000;
            var floor := if c.mixedFloor <= 1000 then c.mixedFloor else 1000;
            var ceiling := if c.mixedCeiling < floor then floor else if c.mixedCeiling <= 1000 then c.mixedCeiling else 1000;
            Classify(s, c)
            == if total < c.minTotal then InsufficientSamples
               else if s.writeWait >= c.starvationWait || s.writeTimeouts >= c.starvationTimeouts then WriterStarvationRisk
               else if AtLeast(s.readAcquires, total, dominant) then ReadDominant
               else if AtLeast(s.readAcquires, total, floor) && !AtLeast(s.readAcquires, total, ceiling + 1) then MixedContention
               else WriteDominant
  {
    hide Permille;
    RatioBound(s);
    forall p: nat ensures Ratio(s) >= p <==> AtLeast(s.readAcquires, Total(s), p) {
      RatioAtLeast(s, p);
    }
    hide Ratio, AtLeast;
  }

  /** Reads are at least `p` thousandths of all operations; of none they are no share. */
  predicate AtLeast(reading: nat, total: nat, p: nat) {
    if total == 0 then p == 0 else reading * 1000 >= p * total
  }

  lemma RatioAtLeast(s: Sample, p: nat)
    requires s.readAcquires <= MAX64
    ensures Ratio(s) >= p <==> AtLeast(s.readAcquires, Total(s), p)
  {
    hide Permille;
    RatioBound(s);
    var reading, total := s.readAcquires, Total(s);
    if total > 0 {
      var q := Permille(reading, total);
      if q >= p {
        Products(p, q, total, total);
      } else {
        Products(q + 1, p, total, total);
      }
    }
  }

  // ---- The modes ----

  datatype Policy = Policy(mode: Mode, streak: nat, remaining: nat,
                           windows: nat, transitions: nat, rollbacks: nat)

  const START := Policy(Balanced, 0, 0, 0, 0, 0)

  /** The most windows in a row read bias may last, and how long writers then recover. */
  function BiasLimit(c: Config): nat { Max(1, Max(c.maxReadBias, 1) - 1) }
  function Recovery(c: Config): nat { Max(c.recovery, 1) }

  function Recover(c: Config, p: Policy): Policy {
    p.(mode := WriterRecovery, streak := 0, remaining := Recovery(c))
  }

  function Observed(c: Config, p: Policy, sig: Signature): Policy {
    var q := Shift(c, p, sig);
    q.(windows := Min(p.windows + 1, MAX64),
       transitions := if q.mode != p.mode then Min(p.transitions + 1, MAX64) else p.transitions,
       rollbacks := if RollsBack(p, sig) then Min(p.rollbacks + 1, MAX64) else p.rollbacks)
  }

  predicate RollsBack(p: Policy, sig: Signature) {
    sig.WriterStarvationRisk? && !p.mode.WriterRecovery?
  }

  function Shift(c: Config, p: Policy, sig: Signature): Policy {
    match p.mode
    case Balanced =>
      if sig.WriterStarvationRisk? then Recover(c, p)
      else if sig.ReadDominant? || sig.MixedContention? then p.(mode := ReadBiased, streak := 1)
      else p.(streak := 0)
    case ReadBiased =>
      var streak := Min(p.streak + 1, MAX32);
      if sig.WriterStarvationRisk? || streak >= Max(c.maxReadBias, 1) then Recover(c, p)
      else if sig.InsufficientSamples? || sig.WriteDominant? then p.(mode := Balanced, streak := 0)
      else p.(streak := streak)
    case WriterRecovery =>
      var left := if sig.WriterStarvationRisk? then Recovery(c)
                  else if p.remaining > 0 then p.remaining - 1 else 0;
      p.(mode := if left == 0 then Balanced else WriterRecovery, streak := 0, remaining := left)
  }

  class BravoContentionState {
    const config: Config
    var mode: Mode
    var transitions: nat
    var rollbacks: nat
    var windowsObserved: nat
    var consecutiveReadBiasWindows: nat
    var writerRecoveryRemaining: nat
    var lastSignature: Signature

    function Value(): Policy
      reads this
    {
      Policy(mode, consecutiveReadBiasWindows, writerRecoveryRemaining, windowsObserved, transitions, rollbacks)
    }

    constructor (config: Config)
      ensures this.config == config && Value() == START && lastSignature == InsufficientSamples
    {
      this.config := config;
      mode, transitions, rollbacks, windowsObserved := Balanced, 0, 0, 0;
      consecutiveReadBiasWindows, writerRecoveryRemaining := 0, 0;
      lastSignature := InsufficientSamples;
    }

    method Observe(sample: Sample) returns (previous: Mode, switched: bool, rolledBack: bool)
      modifies this
      ensures lastSignature == Classify(sample, config)
      ensures Value() == Observed(config, old(Value()), lastSignature)
      ensures previous == old(mode) && switched == (mode != old(mode))
      ensures rolledBack == RollsBack(old(Value()), lastSignature)
    {
      previous := mode;
      var signature := Classify(sample, config);
      windowsObserved := Min(windowsObserved + 1, MAX64);
      rolledBack := false;
      match mode {
        case Balanced =>
          match signature {
            case WriterStarvationRisk =>
              mode := WriterRecovery;
              writerRecoveryRemaining := Max(config.recovery, 1);
              consecutiveReadBiasWindows := 0;
              rollbacks := Min(rollbacks + 1, MAX64);
              rolledBack := true;
            case ReadDominant | MixedContention =>
              mode := ReadBiased;
              consecutiveReadBiasWindows := 1;
            case InsufficientSamples | WriteDominant =>
              consecutiveReadBiasWindows := 0;
          }
        case ReadBiased =>
          consecutiveReadBiasWindows := Min(consecutiveReadBiasWindows + 1, MAX32);
          var starvation := signature.WriterStarvationRisk?;
          var exhausted := consecutiveReadBiasWindows >= Max(config.maxReadBias, 1);
          if starvation || exhausted {
            mode := WriterRecovery;
            writerRecoveryRemaining := Max(config.recovery, 1);
            consecutiveReadBiasWindows := 0;
            rolledBack := starvation;
            if starvation {
              rollbacks := Min(rollbacks + 1, MAX64);
            }
          } else if signature.InsufficientSamples? || signature.WriteDominant? {
            mode := Balanced;
            consecutiveReadBiasWindows := 0;
          }
        case WriterRecovery =>
          consecutiveReadBiasWindows := 0;
          if signature.WriterStarvationRisk? {
            writerRecoveryRemaining := Max(config.recovery, 1);
          } else if writerRecoveryRemaining > 0 {
            writerRecoveryRemaining := writerRecoveryRemaining - 1;
          }
          if writerRecoveryRemaining == 0 {
            mode := Balanced;
          }
      }
      switched := mode != previous;
      if switched {
        transitions := Min(transitions + 1, MAX64);
      }
      lastSignature := signature;
    }
  }

  // ---- Whole runs ----

  /** The state after `n` of the windows, since the start. */
  function After(c: Config, sigs: seq<Signature>, n: nat): Policy
    requires n <= |sigs|
  {
    if n == 0 then START else Observed(c, After(c, sigs, n - 1), sigs[n - 1])
  }

  predicate Orderly(c: Config, p: Policy) {
    && (if p.mode.ReadBiased? then 1 <= p.streak <= BiasLimit(c) else p.streak == 0)
    && (if p.mode.WriterRecovery? then 1 <= p.remaining <= Recovery(c) else p.remaining == 0)
  }

  lemma {:induction false} RunOrderly(c: Config, sigs: seq<Signature>, n: nat)
    requires n <= |sigs| && c.maxReadBias <= MAX32
    ensures Orderly(c, After(c, sigs, n))
  {
    if n > 0 {
      RunOrderly(c, sigs, n - 1);
    }
  }

  /** Reads are favoured after a window exactly when it was dominated by reads or mixed, no
      recovery was under way, and it did not start one. */
  lemma BiasIff(c: Config, sigs: seq<Signature>, n: nat)
    requires n < |sigs| && c.maxReadBias <= MAX32
    ensures After(c, sigs, n + 1).mode.ReadBiased?
       <==> && (sigs[n].ReadDominant? || sigs[n].MixedContention?)
            && !After(c, sigs, n).mode.WriterRecovery? && !Triggers(c, sigs, n)
  {
    RunOrderly(c, sigs, n);
  }

  /** Read bias never lasts more windows in a row than its limit. */
  lemma {:induction false} ReadBiasIsBounded(c: Config, sigs: seq<Signature>, from: nat, to: nat)
    requires from <= to < |sigs| && c.maxReadBias <= MAX32
    requires forall k: nat | from <= k <= to :: After(c, sigs, k).mode.ReadBiased?
    ensures to - from + 1 <= After(c, sigs, to).streak <= BiasLimit(c)
  {
    RunOrderly(c, sigs, to);
    if from < to {
      ReadBiasIsBounded(c, sigs, from, to - 1);
      assert After(c, sigs, to).mode.ReadBiased?;
    }
  }

  /** Windows that start a recovery or start it over: writers starve, or read bias has used
      up its windows. */
  predicate Triggers(c: Config, sigs: seq<Signature>, k: nat)
    requires k < |sigs|
  {
    || sigs[k].WriterStarvationRisk?
    || (After(c, sigs, k).mode.ReadBiased? && After(c, sigs, k).streak + 1 >= Max(c.maxReadBias, 1))
  }

  /** The last trigger among the first `n` windows, or -1. */
  function LastTrigger(c: Config, sigs: seq<Signature>, n: nat): (k: int)
    requires n <= |sigs|
    ensures -1 <= k < n
    ensures k >= 0 ==> Triggers(c, sigs, k)
    ensures forall j: nat | k < j < n :: !Triggers(c, sigs, j)
  {
    if n == 0 then -1
    else if Triggers(c, sigs, n - 1) then n - 1
    else LastTrigger(c, sigs, n - 1)
  }

  lemma StepRecovers(c: Config, sigs: seq<Signature>, n: nat)
    requires n < |sigs| && c.maxReadBias <= MAX32
    ensures After(c, sigs, n + 1).remaining
         == if Triggers(c, sigs, n) then Recovery(c)
            else if After(c, sigs, n).remaining > 0 then After(c, sigs, n).remaining - 1 else 0
  {
    RunOrderly(c, sigs, n);
  }

  lemma {:induction false} RecoveryCountsDown(c: Config, sigs: seq<Signature>, n: nat)
    requires n <= |sigs| && c.maxReadBias <= MAX32
    ensures var k := LastTrigger(c, sigs, n);
            After(c, sigs, n).remaining == if 0 <= k && n <= k + Recovery(c) then k + Recovery(c) + 1 - n else 0
  {
    if n > 0 {
      RecoveryCountsDown(c, sigs, n - 1);
      StepRecovers(c, sigs, n - 1);
      hide After, Triggers;
    }
  }

  /** Writers are favoured exactly for the windows that follow a trigger within the recovery
      time. */
  lemma RecoveryIff(c: Config, sigs: seq<Signature>, n: nat)
    requires n <= |sigs| && c.maxReadBias <= MAX32
    ensures After(c, sigs, n).mode.WriterRecovery?
       <==> exists k: nat :: k < n <= k + Recovery(c) && Triggers(c, sigs, k)
  {
    RecoveryCountsDown(c, sigs, n);
    RunOrderly(c, sigs, n);
    hide After, Triggers;
    var latest := LastTrigger(c, sigs, n);
    forall k: nat | k < n <= k + Recovery(c) && Triggers(c, sigs, k)
      ensures k <= latest
    {
    }
  }

  /** Under nothing but reads the policy goes round: its full read bias, a full recovery,
      one balanced window. */
  lemma {:induction false} SteadyReadersCycle(c: Config, sigs: seq<Signature>, round: nat, phase: nat)
    requires c.maxReadBias <= MAX32 && phase <= BiasLimit(c) + Recovery(c)
    requires round * (BiasLimit(c) + Recovery(c) + 1) + phase <= |sigs|
    requires forall k | 0 <= k < |sigs| :: sigs[k].ReadDominant?
    ensures var p := After(c, sigs, round * (BiasLimit(c) + Recovery(c) + 1) + phase);
            if phase == 0 then p.mode.Balanced?
            else if phase <= BiasLimit(c) then p.mode.ReadBiased? && p.streak == phase
            else p.mode.WriterRecovery? && p.remaining == BiasLimit(c) + Recovery(c) + 1 - phase
    decreases round, phase
  {
    hide After;
    var period := BiasLimit(c) + Recovery(c) + 1;
    if phase > 0 {
      SteadyReadersCycle(c, sigs, round, phase - 1);
      StepUnderReads(c, sigs, round * period + phase - 1);
    } else if round > 0 {
      assert round * period == (round - 1) * period + period;
      SteadyReadersCycle(c, sigs, round - 1, period - 1);
      StepUnderReads(c, sigs, round * period - 1);
    } else {
      AfterNone(c, sigs);
    }
  }

  lemma AfterNone(c: Config, sigs: seq<Signature>)
    ensures After(c, sigs, 0) == START
  {
  }

  lemma StepUnderReads(c: Config, sigs: seq<Signature>, n: nat)
    requires n < |sigs| && sigs[n].ReadDominant? && c.maxReadBias <= MAX32
    ensures var p, q := After(c, sigs, n), After(c, sigs, n + 1);
            match p.mode
            case Balanced => q.mode.ReadBiased? && q.streak == 1
            case ReadBiased =>
              if p.streak < BiasLimit(c) then q.mode.ReadBiased? && q.streak == p.streak + 1
              else q.mode.WriterRecovery? && q.remaining == Recovery(c)
            case WriterRecovery =>
              if p.remaining > 1 then q.mode.WriterRecovery? && q.remaining == p.remaining - 1
              else q.mode.Balanced?
  {
    RunOrderly(c, sigs, n);
  }

  function Count(p: seq<bool>): nat {
    if p == [] then 0 else Count(p[..|p| - 1]) + if p[|p| - 1] then 1 else 0
  }

  function Switches(c: Config, sigs: seq<Signature>, n: nat): seq<bool>
    requires n <= |sigs|
  {
    seq(n, k requires 0 <= k < n => After(c, sigs, k + 1).mode != After(c, sigs, k).mode)
  }

  function Rollbacks(c: Config, sigs: seq<Signature>, n: nat): seq<bool>
    requires n <= |sigs|
  {
    seq(n, k requires 0 <= k < n => RollsBack(After(c, sigs, k), sigs[k]))
  }

  lemma StepCounts(c: Config, sigs: seq<Signature>, n: nat)
    requires n < |sigs|
    ensures var p, q := After(c, sigs, n), After(c, sigs, n + 1);
            && q.windows == Min(p.windows + 1, MAX64)
            && q.transitions == (if q.mode != p.mode then Min(p.transitions + 1, MAX64) else p.transitions)
            && q.rollbacks == if RollsBack(p, sigs[n]) then Min(p.rollbacks + 1, MAX64) else p.rollbacks
  {
  }

  /** The counters count windows, changes of mode and rollbacks, up to where they saturate. */
  lemma {:induction false} CountersCount(c: Config, sigs: seq<Signature>, n: nat)
    requires n <= |sigs|
    ensures After(c, sigs, n).windows == Min(n, MAX64)
    ensures After(c, sigs, n).transitions == Min(Count(Switches(c, sigs, n)), MAX64)
    ensures After(c, sigs, n).rollbacks == Min(Count(Rollbacks(c, sigs, n)), MAX64)
  {
    hide After, Observed, Shift, RollsBack, Switches, Rollbacks, Count;
    if n == 0 {
      NothingCounted(c, sigs);
    } else {
      CountersCount(c, sigs, n - 1);
      StepCounts(c, sigs, n - 1);
      CountsStep(c, sigs, n - 1);
    }
  }

  lemma NothingCounted(c: Config, sigs: seq<Signature>)
    ensures After(c, sigs, 0) == START
    ensures Count(Switches(c, sigs, 0)) == Count(Rollbacks(c, sigs, 0)) == 0
  {
  }

  lemma CountsStep(c: Config, sigs: seq<Signature>, n: nat)
    requires n < |sigs|
    ensures Count(Switches(c, sigs, n + 1)) == Count(Switches(c, sigs, n))
              + if After(c, sigs, n + 1).mode != After(c, sigs, n).mode then 1 else 0
    ensures Count(Rollbacks(c, sigs, n + 1)) == Count(Rollbacks(c, sigs, n))
              + if RollsBack(After(c, sigs, n), sigs[n]) then 1 else 0
  {
    hide After, RollsBack;
    assert Switches(c, sigs, n + 1)[..n] == Switches(c, sigs, n);
    assert Rollbacks(c, sigs, n + 1)[..n] == Rollbacks(c, sigs, n);
  }
}
