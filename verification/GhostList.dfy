/** The list of recently evicted keys.

    Both the admission policy and the hostcall queue keep it as two maps: from generation
    to key and from key to generation.  `GhostIndex` is that pair of maps, proved to be a
    bounded list of keys, oldest first.  What the list holds is then characterised by the
    history of recordings and removals alone. */
module GhostList {
  import opened Seqs

  // ---- The list as a function of its history ----

  datatype Event<K> = Recorded(key: K) | Removed(key: K) | Reset

  function Relist<K(==)>(keys: seq<K>, key: K): seq<K> {
    Without(keys, key) + [key]
  }

  /** The list that forgets nothing but what is removed. */
  function Unbounded<K(==)>(history: seq<Event<K>>): seq<K> {
    if history == [] then []
    else
      var before := Unbounded(history[..|history| - 1]);
      match history[|history| - 1]
      case Recorded(key) => Relist(before, key)
      case Removed(key) => Without(before, key)
      case Reset => []
  }

  /** The list cut from its oldest end to `capacity` after every recording. */
  function Bounded<K(==)>(capacity: nat, history: seq<Event<K>>): seq<K> {
    if history == [] then []
    else
      var before := Bounded(capacity, history[..|history| - 1]);
      match history[|history| - 1]
      case Recorded(key) => Latest(Relist(before, key), capacity)
      case Removed(key) => Without(before, key)
      case Reset => []
  }

  /** When `key` was last recorded, or -1 if it was never, or was removed since. */
  function LastRecorded<K(==)>(history: seq<Event<K>>, key: K): (t: int)
    ensures -1 <= t < |history|
    ensures t >= 0 ==> history[t] == Recorded(key)
  {
    if history == [] then -1
    else
      var last := |history| - 1;
      match history[last]
      case Recorded(k) => if k == key then last else LastRecorded(history[..last], key)
      case Removed(k) => if k == key then -1 else LastRecorded(history[..last], key)
      case Reset => -1
  }

  ghost predicate OrderedByRecording<K>(keys: seq<K>, history: seq<Event<K>>) {
    forall i, j | 0 <= i < j < |keys| :: LastRecorded(history, keys[i]) < LastRecorded(history, keys[j])
  }

  /** The unbounded list holds exactly the keys recorded and not removed since, each once,
      in the order of their latest recording. */
  lemma {:induction false} UnboundedMeaning<K>(history: seq<Event<K>>)
    ensures Distinct(Unbounded(history))
    ensures forall k | k in Unbounded(history) :: LastRecorded(history, k) >= 0
    ensures forall k | LastRecorded(history, k) >= 0 :: k in Unbounded(history)
    ensures OrderedByRecording(Unbounded(history), history)
  {
    if history != [] {
      var last := |history| - 1;
      var before := Unbounded(history[..last]);
      UnboundedMeaning(history[..last]);
      match history[last]
      case Recorded(key) => WithoutDistinct(before, key); WithoutOrder(before, key, history[..last]);
      case Removed(key) => WithoutDistinct(before, key); WithoutOrder(before, key, history[..last]);
      case Reset =>
    }
  }

  lemma {:induction false} WithoutOrder<K>(keys: seq<K>, key: K, history: seq<Event<K>>)
    requires Distinct(keys) && OrderedByRecording(keys, history)
    ensures OrderedByRecording(Without(keys, key), history)
  {
    hide Without, LastRecorded;
    if key in keys {
      var i :| 0 <= i < |keys| && keys[i] == key;
      WithoutAt(keys, i);
    } else {
      WithoutAbsent(keys, key);
    }
  }

  /** The bounded list is always the newest part of the unbounded one. */
  lemma {:induction false} BoundedIsSuffix<K>(capacity: nat, history: seq<Event<K>>)
    ensures IsSuffix(Bounded(capacity, history), Unbounded(history))
    ensures |Bounded(capacity, history)| <= capacity
  {
    if history != [] {
      var last := |history| - 1;
      BoundedIsSuffix(capacity, history[..last]);
      var b, u := Bounded(capacity, history[..last]), Unbounded(history[..last]);
      UnboundedMeaning(history[..last]);
      if !history[last].Reset? {
        var key := history[last].key;
        SuffixWithout(b, u, key);
        if history[last].Recorded? {
          SuffixAppend(Without(b, key), Without(u, key), key);
          SuffixLatest(Relist(b, key), Relist(u, key), capacity);
        }
      }
    }
  }

  ghost function RecordedKeys<K>(history: seq<Event<K>>): set<K> {
    set e | e in history && e.Recorded? :: e.key
  }

  /** The distinct keys other than `key` recorded after position `at`. */
  ghost function OthersSince<K>(history: seq<Event<K>>, at: int, key: K): set<K>
    requires -1 <= at < |history|
  {
    RecordedKeys(history[at + 1..]) - {key}
  }

  lemma RecordedSince<K>(history: seq<Event<K>>, at: int, key: K, k: K)
    requires -1 <= at < LastRecorded(history, k) && k != key
    ensures k in OthersSince(history, at, key)
  {
    var e := history[at + 1..][LastRecorded(history, k) - at - 1];
    assert e == Recorded(k);
  }

  lemma OthersGrow<K>(history: seq<Event<K>>, at: int, key: K)
    requires -1 <= at < |history| - 1
    ensures |OthersSince(history[..|history| - 1], at, key)| <= |OthersSince(history, at, key)|
  {
    var older := history[..|history| - 1];
    assert history[at + 1..] == older[at + 1..] + [history[|history| - 1]];
    SubsetCard(OthersSince(older, at, key), OthersSince(history, at, key));
  }

  /** A key is forgotten only for the sake of others: once recorded and not removed since,
      it is still listed unless `capacity` other keys were recorded after it. */
  lemma {:induction false} Retention<K>(capacity: nat, history: seq<Event<K>>, key: K)
    requires LastRecorded(history, key) >= 0
    ensures key in Bounded(capacity, history)
         || |OthersSince(history, LastRecorded(history, key), key)| >= capacity
  {
    var last := |history| - 1;
    if LastRecorded(history, key) == last {
      if capacity > 0 {
        LatestKeepsLast(Without(Bounded(capacity, history[..last]), key), key, capacity);
      }
    } else if key !in Bounded(capacity, history) {
      if key in Bounded(capacity, history[..last]) {
        Dropped(capacity, history, key);
      } else {
        Retention(capacity, history[..last], key);
        OthersGrow(history, LastRecorded(history, key), key);
      }
    }
  }

  lemma CutTail<K>(capacity: nat, history: seq<Event<K>>, listed: seq<K>, i: nat)
    requires i < |listed| && listed[i] !in Latest(listed, capacity) && OrderedByRecording(listed, history)
    ensures |Latest(listed, capacity)| == capacity
    ensures forall k | k in Latest(listed, capacity) ::
              k != listed[i] && LastRecorded(history, listed[i]) < LastRecorded(history, k)
  {
    var kept := Latest(listed, capacity);
    assert |listed| > capacity && kept == listed[|listed| - capacity..];
    forall j | |listed| - capacity <= j < |listed| ensures listed[j] in kept {
      assert kept[j - (|listed| - capacity)] == listed[j];
    }
    assert i < |listed| - capacity;
    forall k | k in kept ensures LastRecorded(history, listed[i]) < LastRecorded(history, k) {
      var j :| 0 <= j < |kept| && kept[j] == k;
      assert listed[|listed| - capacity + j] == k;
    }
  }

  /** The step at which a listed key is cut off: everything after it was recorded later. */
  lemma Dropped<K>(capacity: nat, history: seq<Event<K>>, key: K)
    requires history != [] && 0 <= LastRecorded(history, key) < |history| - 1
    requires key in Bounded(capacity, history[..|history| - 1]) && key !in Bounded(capacity, history)
    ensures |OthersSince(history, LastRecorded(history, key), key)| >= capacity
  {
    hide Bounded, Without, Latest, LastRecorded, OrderedByRecording, Distinct;
    var last := |history| - 1;
    var before := Bounded(capacity, history[..last]);
    var at := LastRecorded(history, key);
    DroppedByRecording(capacity, history, key);
    BoundedMeaning(capacity, history);
    var listed := Relist(before, history[last].key);
    RecordOrder(capacity, history, listed);
    var i :| 0 <= i < |listed| && listed[i] == key;
    CutTail(capacity, history, listed, i);
    CountLater(history, at, key, Latest(listed, capacity));
  }

  /** Only recording another key drops one that is not itself removed. */
  lemma DroppedByRecording<K>(capacity: nat, history: seq<Event<K>>, key: K)
    requires history != [] && 0 <= LastRecorded(history, key) < |history| - 1
    requires key in Bounded(capacity, history[..|history| - 1]) && key !in Bounded(capacity, history)
    ensures var last := history[|history| - 1];
            && last.Recorded?
            && key in Relist(Bounded(capacity, history[..|history| - 1]), last.key)
            && Bounded(capacity, history) == Latest(Relist(Bounded(capacity, history[..|history| - 1]), last.key), capacity)
  {
    hide Without, OrderedByRecording, Distinct;
    var last := |history| - 1;
    BoundedMeaning(capacity, history[..last]);
    if !history[last].Reset? {
      WithoutDistinct(Bounded(capacity, history[..last]), history[last].key);
    }
  }

  lemma CountLater<K>(history: seq<Event<K>>, at: int, key: K, later: seq<K>)
    requires -1 <= at < |history| && Distinct(later)
    requires forall k | k in later :: k != key && at < LastRecorded(history, k)
    ensures |OthersSince(history, at, key)| >= |later|
  {
    forall k | k in later ensures k in OthersSince(history, at, key) {
      RecordedSince(history, at, key, k);
    }
    DistinctCard(later);
    SubsetCard(Elements(later), OthersSince(history, at, key));
  }

  /** Before it is cut, the list just extended is ordered by latest recording. */
  lemma RecordOrder<K>(capacity: nat, history: seq<Event<K>>, listed: seq<K>)
    requires history != [] && history[|history| - 1].Recorded?
    requires listed == Relist(Bounded(capacity, history[..|history| - 1]), history[|history| - 1].key)
    ensures OrderedByRecording(listed, history)
  {
    var last := |history| - 1;
    BoundedIsSuffix(capacity, history[..last]);
    UnboundedMeaning(history[..last]);
    UnboundedMeaning(history);
    var b, u, key := Bounded(capacity, history[..last]), Unbounded(history[..last]), history[last].key;
    SuffixWithout(b, u, key);
    SuffixAppend(Without(b, key), Without(u, key), key);
    SuffixOrder(listed, Unbounded(history), history);
  }

  lemma SuffixOrder<K>(b: seq<K>, u: seq<K>, history: seq<Event<K>>)
    requires IsSuffix(b, u) && OrderedByRecording(u, history)
    ensures OrderedByRecording(b, history)
  {
    var n := |u| - |b|;
    forall i, j | 0 <= i < j < |b| ensures LastRecorded(history, b[i]) < LastRecorded(history, b[j]) {
      assert b[i] == u[n + i] && b[j] == u[n + j];
    }
  }

  lemma BoundedMeaning<K>(capacity: nat, history: seq<Event<K>>)
    ensures Distinct(Bounded(capacity, history))
    ensures OrderedByRecording(Bounded(capacity, history), history)
    ensures forall k | k in Bounded(capacity, history) :: LastRecorded(history, k) >= 0
  {
    hide Bounded, Unbounded, LastRecorded, IsSuffix, OrderedByRecording, Distinct;
    BoundedIsSuffix(capacity, history);
    UnboundedMeaning(history);
    var b, u := Bounded(capacity, history), Unbounded(history);
    SuffixMembers(b, u);
    SuffixOrder(b, u, history);
  }

  // ---- The two maps ----

  /** `order` and `lookup` are inverse to each other, within the generations so far. */
  ghost predicate Inverse<K>(gen: nat, order: map<nat, K>, lookup: map<K, nat>) {
    && (forall k | k in lookup :: lookup[k] in order && order[lookup[k]] == k)
    && (forall g | g in order :: g <= gen && order[g] in lookup && lookup[order[g]] == g)
  }

  /** `keys` are the indexed keys, by increasing generation. */
  ghost predicate Lists<K>(keys: seq<K>, lookup: map<K, nat>) {
    && (forall k | k in keys :: k in lookup)
    && (forall k | k in lookup :: k in keys)
    && SortedBy(keys, lookup)
  }

  lemma ListsDistinct<K>(keys: seq<K>, lookup: map<K, nat>)
    requires Lists(keys, lookup)
    ensures Distinct(keys) && |lookup| == |keys|
  {
    assert lookup.Keys == Elements(keys);
    forall i, j | 0 <= i < j < |keys| ensures keys[i] != keys[j] {
      assert lookup[keys[i]] < lookup[keys[j]];
    }
    DistinctCard(keys);
  }

  ghost predicate SortedBy<K>(keys: seq<K>, lookup: map<K, nat>)
    requires forall k | k in keys :: k in lookup
  {
    forall i, j | 0 <= i < j < |keys| :: lookup[keys[i]] < lookup[keys[j]]
  }

  lemma SortedDrop<K>(keys: seq<K>, lookup: map<K, nat>, i: nat)
    requires forall k | k in keys :: k in lookup
    requires SortedBy(keys, lookup) && i < |keys|
    ensures forall k | k in keys[..i] + keys[i + 1..] :: k in keys
    ensures SortedBy(keys[..i] + keys[i + 1..], lookup)
  {
    var rest := keys[..i] + keys[i + 1..];
    forall a, b | 0 <= a < b < |rest| ensures lookup[rest[a]] < lookup[rest[b]] {
      assert rest[a] == keys[if a < i then a else a + 1];
      assert rest[b] == keys[if b < i then b else b + 1];
    }
  }

  lemma SortedForget<K>(keys: seq<K>, lookup: map<K, nat>, key: K)
    requires forall k | k in keys :: k in lookup
    requires SortedBy(keys, lookup) && key !in keys
    ensures SortedBy(keys, lookup - {key})
  {
  }

  lemma ListsRemove<K>(keys: seq<K>, lookup: map<K, nat>, key: K)
    requires Lists(keys, lookup)
    ensures Lists(Without(keys, key), lookup - {key})
  {
    hide Without, SortedBy;
    ListsDistinct(keys, lookup);
    WithoutDistinct(keys, key);
    if key in keys {
      var i :| 0 <= i < |keys| && keys[i] == key;
      WithoutAt(keys, i);
      SortedDrop(keys, lookup, i);
    } else {
      WithoutAbsent(keys, key);
    }
    SortedForget(Without(keys, key), lookup, key);
  }

  lemma ListsAppend<K>(keys: seq<K>, lookup: map<K, nat>, key: K, gen: nat)
    requires Lists(keys, lookup) && key !in lookup
    requires forall k | k in lookup :: lookup[k] < gen
    ensures Lists(keys + [key], lookup[key := gen])
  {
    assert forall k :: k in keys + [key] <==> k in keys || k == key;
  }

  lemma ListsPop<K>(keys: seq<K>, gen: nat, order: map<nat, K>, lookup: map<K, nat>)
    requires Inverse(gen, order, lookup) && Lists(keys, lookup) && keys != []
    ensures keys[0] in lookup && lookup[keys[0]] in order && order[lookup[keys[0]]] == keys[0]
    ensures forall g | g in order :: lookup[keys[0]] <= g
    ensures Without(keys, keys[0]) == keys[1..]
  {
    assert keys[0] in lookup;
    forall g | g in order ensures lookup[keys[0]] <= g {
      var j :| 0 <= j < |keys| && keys[j] == order[g];
      assert lookup[keys[j]] == g;
      assert j > 0 ==> lookup[keys[0]] < lookup[keys[j]];
    }
  }

  lemma InverseRemove<K>(gen: nat, order: map<nat, K>, lookup: map<K, nat>, key: K)
    requires Inverse(gen, order, lookup) && key in lookup
    ensures Inverse(gen, order - {lookup[key]}, lookup - {key})
  {
  }

  lemma InverseAppend<K>(gen: nat, order: map<nat, K>, lookup: map<K, nat>, key: K)
    requires Inverse(gen, order, lookup) && key !in lookup
    ensures Inverse(gen + 1, order[gen + 1 := key], lookup[key := gen + 1])
  {
  }

  lemma RelinkNew<K>(keys: seq<K>, gen: nat, order: map<nat, K>, lookup: map<K, nat>, key: K)
    requires Inverse(gen, order, lookup) && Lists(keys, lookup) && key !in lookup
    ensures Inverse(gen + 1, order[gen + 1 := key], lookup[key := gen + 1])
    ensures Lists(Relist(keys, key), lookup[key := gen + 1])
  {
    InverseAppend(gen, order, lookup, key);
    WithoutAbsent(keys, key);
    BelowGen(gen, order, lookup);
    ListsAppend(keys, lookup, key, gen + 1);
  }

  lemma RelinkListed<K>(keys: seq<K>, gen: nat, order: map<nat, K>, lookup: map<K, nat>, key: K)
    requires Inverse(gen, order, lookup) && Lists(keys, lookup) && key in lookup
    ensures lookup[key] in order && order[lookup[key]] == key
    ensures Inverse(gen + 1, (order - {lookup[key]})[gen + 1 := key], lookup[key := gen + 1])
    ensures Lists(Relist(keys, key), lookup[key := gen + 1])
  {
    hide Lists, Inverse, Without;
    InverseAt(gen, order, lookup, key);
    InverseRemove(gen, order, lookup, key);
    ListsRemove(keys, lookup, key);
    var others := lookup - {key};
    assert others[key := gen + 1] == lookup[key := gen + 1];
    InverseAppend(gen, order - {lookup[key]}, others, key);
    BelowGen(gen, order, lookup);
    ListsAppend(Without(keys, key), others, key, gen + 1);
  }

  lemma InverseAt<K>(gen: nat, order: map<nat, K>, lookup: map<K, nat>, key: K)
    requires Inverse(gen, order, lookup) && key in lookup
    ensures lookup[key] in order && order[lookup[key]] == key
  {
  }

  lemma BelowGen<K>(gen: nat, order: map<nat, K>, lookup: map<K, nat>)
    requires Inverse(gen, order, lookup)
    ensures forall k | k in lookup :: lookup[k] <= gen
  {
  }

  class GhostIndex<K(==)> {
    const capacity: nat
    const maxGen: nat
    var order: map<nat, K>
    var lookup: map<K, nat>
    var gen: nat
    ghost var history: seq<Event<K>>

    ghost predicate Valid()
      reads this
    {
      && gen <= maxGen && maxGen > 0
      && Inverse(gen, order, lookup)
      && Lists(Keys(), lookup)
    }

    /** The listed keys, oldest first. */
    ghost function Keys(): seq<K>
      reads this
    {
      Bounded(capacity, history)
    }

    constructor (capacity: nat, maxGen: nat)
      requires maxGen > 0
      ensures Valid() && this.capacity == capacity && this.maxGen == maxGen
      ensures history == [] && gen == 0
    {
      this.capacity, this.maxGen := capacity, maxGen;
      order, lookup, gen := map[], map[], 0;
      history := [];
    }

    method Contains(key: K) returns (listed: bool)
      requires Valid()
      ensures listed <==> key in Keys()
    {
      listed := key in lookup;
    }

    method Depth() returns (n: nat)
      requires Valid()
      ensures n == |Keys()|
    {
      ListsDistinct(Keys(), lookup);
      n := |lookup|;
    }

    method Remove(key: K) returns (hit: bool)
      requires Valid()
      modifies this
      ensures Valid() && gen == old(gen)
      ensures hit <==> key in old(Keys())
      ensures history == if hit then old(history) + [Removed(key)] else old(history)
    {
      hit := key in lookup;
      if hit {
        ListsRemove(Keys(), lookup, key);
        InverseRemove(gen, order, lookup, key);
        var generation := lookup[key];
        lookup := lookup - {key};
        order := order - {generation};
        history := history + [Removed(key)];
        assert history[..|history| - 1] == old(history);
      }
    }

    method Record(key: K)
      requires Valid()
      modifies this
      ensures Valid()
      ensures gen == if old(gen) == maxGen then 1 else old(gen) + 1
      ensures history == (if old(gen) == maxGen then old(history) + [Reset] else old(history)) + [Recorded(key)]
    {
      hide Bounded, Lists, Inverse;
      if gen == maxGen {
        Clear();
      }
      ghost var keys := Keys();
      Relink(keys, key);
      Trim(Relist(keys, key));
      history := history + [Recorded(key)];
      BoundedSnoc(capacity, history);
    }

    method Clear()
      requires Valid()
      modifies this
      ensures Valid() && gen == 0 && history == old(history) + [Reset]
    {
      gen, order, lookup := 0, map[], map[];
      history := history + [Reset];
    }

    /** Gives `key` the next generation, whether or not it is listed already. */
    method Relink(ghost keys: seq<K>, key: K)
      requires Inverse(gen, order, lookup) && Lists(keys, lookup)
      modifies this`gen, this`order, this`lookup
      ensures gen == old(gen) + 1
      ensures Inverse(gen, order, lookup) && Lists(Relist(keys, key), lookup)
    {
      hide Lists, Inverse, Relist;
      gen := gen + 1;
      if key in lookup {
        RelinkListed(keys, gen - 1, order, lookup, key);
        var oldGen := lookup[key];
        lookup := lookup[key := gen];
        if oldGen in order {
          order := (order - {oldGen})[gen := order[oldGen]];
        }
      } else {
        RelinkNew(keys, gen - 1, order, lookup, key);
        lookup := lookup[key := gen];
        order := order[gen := key];
      }
    }

    /** Drops the least generation while the list is over capacity. */
    method Trim(ghost listed: seq<K>)
      requires Inverse(gen, order, lookup) && Lists(listed, lookup)
      modifies this`order, this`lookup
      ensures Inverse(gen, order, lookup) && Lists(Latest(listed, capacity), lookup)
    {
      hide Lists, Inverse, Without;
      ghost var rest := listed;
      ListsDistinct(rest, lookup);
      while |lookup| > capacity && order != map[]
        invariant Inverse(gen, order, lookup) && Lists(rest, lookup)
        invariant |lookup| == |rest|
        invariant IsSuffix(rest, listed) && |rest| >= |Latest(listed, capacity)|
        decreases |lookup|
      {
        ListsPop(rest, gen, order, lookup);
        ListsRemove(rest, lookup, rest[0]);
        InverseRemove(gen, order, lookup, rest[0]);
        var first := LeastKey(order, lookup[rest[0]]);
        var popped := order[first];
        order := order - {first};
        lookup := lookup - {popped};
        rest := rest[1..];
        ListsDistinct(rest, lookup);
      }
      if |rest| > capacity {
        ListsPop(rest, gen, order, lookup);
      }
    }
  }

  /** The first key of an ordered map. */
  method LeastKey<K>(order: map<nat, K>, ghost expected: nat) returns (first: nat)
    requires expected in order && forall g | g in order :: expected <= g
    ensures first == expected
  {
    first :| first in order && forall g | g in order :: first <= g;
  }

  lemma BoundedSnoc<K>(capacity: nat, history: seq<Event<K>>)
    requires history != [] && history[|history| - 1].Recorded?
    ensures Bounded(capacity, history)
            == Latest(Relist(Bounded(capacity, history[..|history| - 1]), history[|history| - 1].key), capacity)
  {
  }
}
