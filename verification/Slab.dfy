/** The NUMA slab allocator: generation-checked slots recycled through a free list, one slab
    per node, with a pool that falls back to other nodes. */
module Slab {
  import opened Basics
  import opened Seqs

  datatype Handle = Handle(node: nat, slot: nat, generation: nat)

  /** The handles of the allocated slots at their current generations. */
  ghost function HandlesOf(node: nat, generations: seq<nat>, used: seq<bool>): set<Handle>
    requires |generations| == |used|
  {
    set i | 0 <= i < |used| && used[i] :: Handle(node, i, generations[i])
  }

  /** The slots a free list should hold. */
  ghost function FreeSlots(used: seq<bool>): set<nat> {
    set i: nat | 0 <= i < |used| && !used[i]
  }

  /** Every handle ever given out: all generations from 1 to the current one of each slot. */
  ghost predicate IssuedUpTo(node: nat, generations: seq<nat>, issued: set<Handle>) {
    && (forall h | h in issued :: h.node == node && h.slot < |generations| && 1 <= h.generation <= generations[h.slot])
    && (forall i: nat, g: nat | i < |generations| && 1 <= g <= generations[i] :: Handle(node, i, g) in issued)
  }

  lemma HandlesAllocate(node: nat, generations: seq<nat>, used: seq<bool>, slot: nat, generation: nat)
    requires |generations| == |used| && slot < |used| && !used[slot]
    ensures HandlesOf(node, generations[slot := generation], used[slot := true])
            == HandlesOf(node, generations, used) + {Handle(node, slot, generation)}
    ensures FreeSlots(used[slot := true]) == FreeSlots(used) - {slot}
  {
    var g, a := generations[slot := generation], used[slot := true];
    forall h | h in HandlesOf(node, generations, used) ensures h in HandlesOf(node, g, a) {
      assert a[h.slot] && g[h.slot] == h.generation;
    }
    assert a[slot] && Handle(node, slot, g[slot]) in HandlesOf(node, g, a);
    forall h | h in HandlesOf(node, g, a)
      ensures h in HandlesOf(node, generations, used) + {Handle(node, slot, generation)}
    {
      assert a[h.slot];
      if h.slot != slot {
        assert used[h.slot] && generations[h.slot] == h.generation;
      }
    }
  }

  lemma HandlesDeallocate(node: nat, generations: seq<nat>, used: seq<bool>, slot: nat)
    requires |generations| == |used| && slot < |used| && used[slot]
    ensures HandlesOf(node, generations, used[slot := false])
            == HandlesOf(node, generations, used) - {Handle(node, slot, generations[slot])}
    ensures FreeSlots(used[slot := false]) == FreeSlots(used) + {slot}
  {
    var a := used[slot := false];
    forall h | h in HandlesOf(node, generations, used) && h.slot != slot
      ensures h in HandlesOf(node, generations, a)
    {
      assert a[h.slot] && generations[h.slot] == h.generation;
    }
    forall h | h in HandlesOf(node, generations, a)
      ensures h in HandlesOf(node, generations, used) && h.slot != slot
    {
      assert a[h.slot] && used[h.slot];
    }
  }

  lemma IssueNext(node: nat, generations: seq<nat>, issued: set<Handle>, slot: nat, max: nat)
    requires IssuedUpTo(node, generations, issued) && slot < |generations| && 1 <= max
    requires generations[slot] <= max
    ensures var g := Saturating(generations[slot], max);
            IssuedUpTo(node, generations[slot := g], issued + {Handle(node, slot, g)})
            && (Handle(node, slot, g) in issued <==> generations[slot] == max)
  {
  }

  /** A slot count: free and allocated slots make up the capacity. */
  lemma {:induction false} FreeCount(used: seq<bool>)
    ensures |FreeSlots(used)| <= |used|
  {
    if used != [] {
      var last := |used| - 1;
      FreeCount(used[..last]);
      assert FreeSlots(used) == FreeSlots(used[..last]) + if used[last] then {} else {last};
    }
  }

  class NumaSlab {
    const nodeId: nat
    const capacity: nat
    const maxCount: nat  // u64::MAX
    const generations: array<nat>
    const used: array<bool>
    var freeList: seq<nat>
    var totalAllocs: nat
    var totalFrees: nat
    var highWaterMark: nat
    /** Every handle ever given out, and how often allocation and freeing succeeded. */
    ghost var issued: set<Handle>
    ghost var allocs: nat
    ghost var frees: nat

    ghost predicate Valid()
      reads this, generations, used
    {
      && capacity >= 1 && maxCount >= 1
      && generations.Length == used.Length == capacity
      && Distinct(freeList) && Elements(freeList) == FreeSlots(used[..])
      && IssuedUpTo(nodeId, generations[..], issued)
      && (forall i | 0 <= i < capacity :: generations[i] <= maxCount)
      && (forall i | 0 <= i < capacity && used[i] :: generations[i] >= 1)
      && allocs - frees == capacity - |freeList| >= 0
      && totalAllocs == (if allocs <= maxCount then allocs else maxCount)
      && totalFrees == (if frees <= maxCount then frees else maxCount)
    }

    /** The handles that are currently out. */
    ghost function Outstanding(): set<Handle>
      requires generations.Length == used.Length
      reads generations, used
    {
      HandlesOf(nodeId, generations[..], used[..])
    }

    constructor (nodeId: nat, capacity: nat, maxCount: nat)
      requires maxCount >= 1
      ensures Valid() && Outstanding() == {} && issued == {} && this.nodeId == nodeId && this.maxCount == maxCount
      ensures this.capacity == |freeList| == Max(capacity, 1)
      ensures fresh(generations) && fresh(used)
    {
      var room := Max(capacity, 1);
      this.nodeId, this.capacity, this.maxCount := nodeId, room, maxCount;
      generations := new nat[room](i => 0);
      used := new bool[room](i => false);
      totalAllocs, totalFrees, highWaterMark, issued, allocs, frees := 0, 0, 0, {}, 0, 0;
      freeList := [];
      new;
      var idx := room;
      while idx > 0
        invariant idx <= room == this.capacity && |freeList| == room - idx
        invariant forall k | 0 <= k < |freeList| :: freeList[k] == room - 1 - k
        invariant issued == {} && allocs == frees == totalAllocs == totalFrees == 0
        invariant forall i | 0 <= i < room :: generations[i] == 0 && !used[i]
      {
        idx := idx - 1;
        freeList := freeList + [idx];
      }
      forall i: nat | i < room ensures i in freeList {
        assert freeList[room - 1 - i] == i;
      }
    }

    function InUse(): nat
      reads this
    {
      if capacity >= |freeList| then capacity - |freeList| else 0
    }

    /** Hands out a slot exactly while one is free.  The handle is new unless the slot's
        generation counter is stuck at its maximum. */
    method Allocate() returns (r: Option<Handle>)
      requires Valid()
      modifies this, generations, used
      ensures Valid()
      ensures r.None? <==> old(freeList) == []
      ensures r.None? ==> Outstanding() == old(Outstanding()) && issued == old(issued) && freeList == old(freeList)
      ensures r.Some? ==>
                && r.value.node == nodeId && r.value !in old(Outstanding())
                && Outstanding() == old(Outstanding()) + {r.value}
                && issued == old(issued) + {r.value}
                && (r.value in old(issued) <==> old(generations[..])[r.value.slot] == maxCount)
                && old(freeList) == freeList + [r.value.slot]
                && r.value.generation == Saturating(old(generations[..])[r.value.slot], maxCount)
      ensures allocs == old(allocs) + (if r.Some? then 1 else 0) && frees == old(frees)
      ensures highWaterMark == if r.Some? && InUse() > old(highWaterMark) then InUse() else old(highWaterMark)
    {
      hide HandlesOf, IssuedUpTo, FreeSlots, Distinct, Elements;
      if freeList == [] {
        return None;
      }
      var slot := freeList[|freeList| - 1];
      TakeLast(freeList);
      FreeMember(used[..], freeList, slot);
      ghost var g := Saturating(generations[slot], maxCount);
      HandlesAllocate(nodeId, generations[..], used[..], slot, g);
      IssueNext(nodeId, generations[..], issued, slot, maxCount);
      NotOut(nodeId, generations[..], used[..], slot, g);
      freeList := freeList[..|freeList| - 1];
      used[slot] := true;
      assert used[..] == old(used[..])[slot := true];
      generations[slot] := Saturating(generations[slot], maxCount);
      assert generations[..] == old(generations[..])[slot := g];
      totalAllocs := Saturating(totalAllocs, maxCount);
      highWaterMark := if InUse() > highWaterMark then InUse() else highWaterMark;
      r := Some(Handle(nodeId, slot, generations[slot]));
      issued := issued + {r.value};
      allocs := allocs + 1;
    }

    /** Frees exactly the outstanding handles: never one twice, never a stale one. */
    method Deallocate(handle: Handle) returns (freed: bool)
      requires Valid()
      modifies this, used
      ensures Valid() && issued == old(issued)
      ensures freed <==> handle in old(Outstanding())
      ensures Outstanding() == old(Outstanding()) - {handle}
      ensures freeList == if freed then old(freeList) + [handle.slot] else old(freeList)
      ensures frees == old(frees) + (if freed then 1 else 0) && allocs == old(allocs)
    {
      hide IssuedUpTo, FreeSlots, HandlesOf;
      HandleAt(nodeId, generations[..], used[..], handle);
      if handle.node != nodeId {
        return false;
      }
      if handle.slot >= capacity {
        return false;
      }
      if !used[handle.slot] {
        return false;
      }
      if generations[handle.slot] != handle.generation {
        return false;
      }
      HandlesDeallocate(nodeId, generations[..], used[..], handle.slot);
      UsedMember(used[..], freeList, handle.slot);
      AddLast(freeList, handle.slot);
      UsedCount(used[..], freeList, handle.slot);
      used[handle.slot] := false;
      assert used[..] == old(used[..])[handle.slot := false];
      freeList := freeList + [handle.slot];
      totalFrees := Saturating(totalFrees, maxCount);
      frees := frees + 1;
      freed := true;
    }
  }

  datatype CrossNode = Local | LocalExhausted

  function Union<T>(sets: seq<set<T>>): set<T> {
    if sets == [] then {} else Union(sets[..|sets| - 1]) + sets[|sets| - 1]
  }

  lemma {:induction false} UnionMember<T>(sets: seq<set<T>>, x: T)
    ensures x in Union(sets) <==> exists i :: 0 <= i < |sets| && x in sets[i]
  {
    if sets != [] {
      var last := |sets| - 1;
      UnionMember(sets[..last], x);
      if x in Union(sets[..last]) {
        var i :| 0 <= i < last && x in sets[..last][i];
        assert x in sets[i];
      }
      if i :| 0 <= i < |sets| && x in sets[i] {
        assert i < last ==> x in sets[..last][i];
      }
    }
  }

  lemma {:induction false} UnionGrow<T>(sets: seq<set<T>>, k: nat, x: T)
    requires k < |sets|
    ensures Union(sets[k := sets[k] + {x}]) == Union(sets) + {x}
  {
    var last, after := |sets| - 1, sets[k := sets[k] + {x}];
    if k == last {
      assert after[..last] == sets[..last];
    } else {
      assert after[..last] == sets[..last][k := sets[k] + {x}];
      UnionGrow(sets[..last], k, x);
    }
  }

  lemma {:induction false} UnionShrink<T>(sets: seq<set<T>>, k: nat, x: T)
    requires k < |sets| && forall i | 0 <= i < |sets| && i != k :: x !in sets[i]
    ensures Union(sets[k := sets[k] - {x}]) == Union(sets) - {x}
  {
    var last, after := |sets| - 1, sets[k := sets[k] - {x}];
    if k == last {
      assert after[..last] == sets[..last];
      UnionMember(sets[..last], x);
    } else {
      assert after[..last] == sets[..last][k := sets[k] - {x}];
      UnionShrink(sets[..last], k, x);
    }
  }

  /** Slabs for different nodes share neither memory nor limits outside `footprint`. */
  ghost predicate Apart(slabs: seq<NumaSlab>, footprint: set<object>, maxCount: nat) {
    && (forall i | 0 <= i < |slabs| ::
          && slabs[i] in footprint && slabs[i].generations in footprint && slabs[i].used in footprint
          && slabs[i].maxCount == maxCount)
    && (forall i, j | 0 <= i < j < |slabs| ::
          && slabs[i] != slabs[j] && slabs[i].nodeId != slabs[j].nodeId
          && slabs[i].generations != slabs[j].generations && slabs[i].used != slabs[j].used)
  }

  method BuildSlabs(nodeIds: seq<nat>, capacity: nat, maxCount: nat)
    returns (built: seq<NumaSlab>, ghost mine: set<object>)
    requires maxCount >= 1 && IsAscending(nodeIds)
    ensures |built| == |nodeIds| && fresh(mine) && Apart(built, mine, maxCount)
    ensures forall i | 0 <= i < |built| ::
              && built[i].nodeId == nodeIds[i] && built[i].Valid() && built[i].Outstanding() == {}
              && |built[i].freeList| == built[i].capacity == Max(capacity, 1)
  {
    hide HandlesOf, IssuedUpTo, FreeSlots, Distinct;
    built, mine := [], {};
    for k := 0 to |nodeIds|
      invariant |built| == k && fresh(mine) && Apart(built, mine, maxCount)
      invariant forall i | 0 <= i < k ::
          && built[i].nodeId == nodeIds[i] && built[i].Valid() && built[i].Outstanding() == {}
          && |built[i].freeList| == built[i].capacity == Max(capacity, 1)
    {
      var slab := new NumaSlab(nodeIds[k], capacity, maxCount);
      built := built + [slab];
      mine := mine + {slab, slab.generations, slab.used};
    }
  }

  /** The nodes of a placement, or node 0 if it names none. */
  function NodeIds(nodes: set<nat>): (ids: seq<nat>)
    ensures IsAscending(ids)
  {
    Ascending(if nodes == {} then {0} else nodes)
  }

  /** One slab per NUMA node. */
  class NumaSlabPool {
    const slabs: seq<NumaSlab>
    const maxCount: nat
    ghost const footprint: set<object>
    var crossNodeAllocs: nat
    /** Every handle ever given out. */
    ghost var issued: set<Handle>

    ghost predicate Sound()
      reads footprint
    {
      this !in footprint && Apart(slabs, footprint, maxCount) && forall i | 0 <= i < |slabs| :: slabs[i].Valid()
    }

    ghost predicate Valid()
      reads this`issued, footprint
    {
      && Sound()
      && (forall i, h | 0 <= i < |slabs| && h in issued && h.node == slabs[i].nodeId :: h in slabs[i].issued)
    }

    /** One slab for each node of a placement, or a single one for node 0. */
    constructor (nodes: set<nat>, capacity: nat, maxCount: nat)
      requires maxCount >= 1
      ensures Valid() && fresh(footprint) && Outstanding() == {} && issued == {} && crossNodeAllocs == 0
      ensures this.maxCount == maxCount
      ensures forall i | 0 <= i < |slabs| :: |slabs[i].freeList| == slabs[i].capacity == Max(capacity, 1)
      ensures |slabs| == |NodeIds(nodes)| && forall i | 0 <= i < |slabs| :: slabs[i].nodeId == NodeIds(nodes)[i]
    {
      var nodeIds := NodeIds(nodes);
      var built, mine := BuildSlabs(nodeIds, capacity, maxCount);
      slabs, footprint, crossNodeAllocs, issued := built, mine, 0, {};
      this.maxCount := maxCount;
      new;
      hide Union, Outs, HandlesOf, IssuedUpTo, FreeSlots, Distinct, Elements, NumaSlab.Valid, NodeIds, Apart;
      NothingOut();
    }

    lemma NothingOut()
      requires Sound() && forall i | 0 <= i < |slabs| :: slabs[i].Outstanding() == {}
      ensures Outstanding() == {}
    {
      hide Union;
      forall h: Handle ensures h !in Union(Outs()) {
        UnionMember(Outs(), h);
      }
    }

    /** What each slab has out. */
    ghost function Outs(): seq<set<Handle>>
      requires Sound()
      reads footprint
    {
      seq(|slabs|, i requires Sound() && 0 <= i < |slabs| reads footprint => slabs[i].Outstanding())
    }

    ghost function Outstanding(): set<Handle>
      requires Sound()
      reads footprint
    {
      Union(Outs())
    }

    /** A handle can only be out from the slab of its node. */
    lemma OutAt(h: Handle, i: nat)
      requires Sound() && i < |slabs| && h in Outs()[i]
      ensures slabs[i].nodeId == h.node
    {
      HandleAt(slabs[i].nodeId, slabs[i].generations[..], slabs[i].used[..], h);
    }

    lemma OutstandingAt(h: Handle)
      requires Sound()
      ensures forall k | 0 <= k < |slabs| && slabs[k].nodeId == h.node :: h in Outstanding() <==> h in Outs()[k]
      ensures (forall k | 0 <= k < |slabs| :: slabs[k].nodeId != h.node) ==> h !in Outstanding()
    {
      UnionMember(Outs(), h);
      if h in Outstanding() {
        var i :| 0 <= i < |Outs()| && h in Outs()[i];
        OutAt(h, i);
      }
    }

    /** Allocates from one slab; the others are not touched. */
    method AllocateFrom(k: nat) returns (r: Option<Handle>)
      requires Valid() && k < |slabs|
      modifies this`issued, slabs[k], slabs[k].generations, slabs[k].used
      ensures Valid()
      ensures issued == if r.Some? then old(issued) + {r.value} else old(issued)
      ensures r.Some? && r.value in old(issued) ==> r.value.generation == maxCount
      ensures r.None? <==> old(slabs[k].freeList) == []
      ensures r.None? ==> Outstanding() == old(Outstanding())
      ensures forall i | 0 <= i < |slabs| && (i != k || r.None?) :: slabs[i].freeList == old(slabs[i].freeList)
      ensures r.Some? ==>
                && r.value.node == slabs[k].nodeId && r.value !in old(Outstanding())
                && Outstanding() == old(Outstanding()) + {r.value}
    {
      hide Union, HandlesOf, IssuedUpTo, FreeSlots, Distinct, Elements;
      ghost var before := Outs();
      forall h: Handle ensures h.node == slabs[k].nodeId ==> (h in Outstanding() <==> h in before[k]) {
        OutstandingAt(h);
      }
      r := slabs[k].Allocate();
      if r.Some? {
        issued := issued + {r.value};
        UnionGrow(before, k, r.value);
        assert Outs() == before[k := before[k] + {r.value}];
      } else {
        assert Outs() == before;
      }
    }

    /** Which slabs have a free slot. */
    ghost function Rooms(): (rooms: seq<bool>)
      requires Sound()
      reads footprint
      ensures |rooms| == |slabs|
    {
      seq(|slabs|, i requires Sound() && 0 <= i < |slabs| reads footprint => slabs[i].freeList != [])
    }

    /** Of the nodes other than the preferred one, `node` is the first with room. */
    ghost predicate FirstWithRoom(node: nat, preferred: nat, rooms: seq<bool>)
      requires |rooms| == |slabs|
    {
      exists i :: 0 <= i < |slabs| && slabs[i].nodeId == node && node != preferred && rooms[i]
                  && forall j | 0 <= j < i :: slabs[j].nodeId == preferred || !rooms[j]
    }

    method Find(node: nat) returns (k: Option<nat>)
      ensures k.None? ==> forall i | 0 <= i < |slabs| :: slabs[i].nodeId != node
      ensures k.Some? ==> k.value < |slabs| && slabs[k.value].nodeId == node
    {
      for i := 0 to |slabs|
        invariant forall j | 0 <= j < i :: slabs[j].nodeId != node
      {
        if slabs[i].nodeId == node {
          return Some(i);
        }
      }
      k := None;
    }

    /** Serves the preferred node if it has room, else any node that has; it fails only when
        every slab is full. */
    method Allocate(preferred: nat) returns (r: Option<(Handle, CrossNode)>)
      requires Valid()
      modifies this, footprint
      ensures Valid()
      ensures r.None? <==> forall i | 0 <= i < |slabs| :: old(slabs[i].freeList) == []
      ensures r.None? ==> Outstanding() == old(Outstanding()) && issued == old(issued)
      ensures r.Some? ==>
                && issued == old(issued) + {r.value.0}
                && (r.value.0 in old(issued) ==> r.value.0.generation == maxCount)
                && r.value.0 !in old(Outstanding())
                && Outstanding() == old(Outstanding()) + {r.value.0}
                && (r.value.1 == Local <==> r.value.0.node == preferred)
                && (r.value.1 != Local ==> FirstWithRoom(r.value.0.node, preferred, old(Rooms())))
                && (r.value.1 == Local <==>
                      exists i :: 0 <= i < |slabs| && slabs[i].nodeId == preferred && old(slabs[i].freeList) != [])
      ensures crossNodeAllocs == if r.Some? && r.value.1 == LocalExhausted then Saturating(old(crossNodeAllocs), maxCount)
                                 else old(crossNodeAllocs)
    {
      hide Union, Outs, HandlesOf, IssuedUpTo, FreeSlots, NumaSlab.Valid;
      var home := Find(preferred);
      if home.Some? {
        var local := AllocateFrom(home.value);
        if local.Some? {
          return Some((local.value, Local));
        }
      }
      var remote := AllocateElsewhere(preferred);
      if remote.None? {
        return None;
      }
      crossNodeAllocs := Saturating(crossNodeAllocs, maxCount);
      r := Some((remote.value, LocalExhausted));
    }

    /** The fallback scan over the other nodes, in order. */
    method AllocateElsewhere(preferred: nat) returns (r: Option<Handle>)
      requires Valid()
      requires forall i | 0 <= i < |slabs| && slabs[i].nodeId == preferred :: slabs[i].freeList == []
      modifies this`issued, footprint
      ensures Valid()
      ensures r.None? <==> forall i | 0 <= i < |slabs| :: old(slabs[i].freeList) == []
      ensures issued == if r.Some? then old(issued) + {r.value} else old(issued)
      ensures r.Some? && r.value in old(issued) ==> r.value.generation == maxCount
      ensures r.None? ==> Outstanding() == old(Outstanding())
      ensures r.Some? ==>
                && r.value !in old(Outstanding()) && r.value.node != preferred
                && FirstWithRoom(r.value.node, preferred, old(Rooms()))
                && Outstanding() == old(Outstanding()) + {r.value}
    {
      hide Union, Outs, HandlesOf, IssuedUpTo, FreeSlots, NumaSlab.Valid;
      for i := 0 to |slabs|
        invariant Valid() && Outstanding() == old(Outstanding()) && issued == old(issued)
        invariant forall j | 0 <= j < |slabs| :: slabs[j].freeList == old(slabs[j].freeList)
        invariant forall j | 0 <= j < i :: slabs[j].freeList == []
      {
        if slabs[i].nodeId == preferred {
          continue;
        }
        r := AllocateFrom(i);
        if r.Some? {
          assert old(Rooms())[i];
          return;
        }
      }
      r := None;
    }

    /** Frees exactly the handles that are out, whichever slab they came from. */
    method Deallocate(handle: Handle) returns (freed: bool)
      requires Valid()
      modifies footprint
      ensures Valid() && issued == old(issued)
      ensures freed <==> handle in old(Outstanding())
      ensures Outstanding() == old(Outstanding()) - {handle}
    {
      hide Union, HandlesOf, IssuedUpTo, FreeSlots, Distinct, Elements;
      OutstandingAt(handle);
      var k := Find(handle.node);
      if k.None? {
        return false;
      }
      ghost var before := Outs();
      forall i | 0 <= i < |slabs| && i != k.value ensures handle !in before[i] {
        if handle in before[i] {
          OutAt(handle, i);
        }
      }
      UnionShrink(before, k.value, handle);
      freed := slabs[k.value].Deallocate(handle);
      assert Outs() == before[k.value := before[k.value] - {handle}];
    }
  }

  lemma TakeLast(s: seq<nat>)
    requires Distinct(s) && s != []
    ensures Distinct(s[..|s| - 1]) && Elements(s[..|s| - 1]) == Elements(s) - {s[|s| - 1]}
  {
    var last := |s| - 1;
    assert s == s[..last] + [s[last]];
  }

  lemma AddLast(s: seq<nat>, x: nat)
    requires Distinct(s) && x !in s
    ensures Distinct(s + [x]) && Elements(s + [x]) == Elements(s) + {x}
  {
  }

  lemma FreeMember(used: seq<bool>, free: seq<nat>, slot: nat)
    requires Elements(free) == FreeSlots(used) && slot in free
    ensures slot < |used| && !used[slot]
  {
    assert slot in Elements(free);
  }

  lemma UsedMember(used: seq<bool>, free: seq<nat>, slot: nat)
    requires Elements(free) == FreeSlots(used) && slot < |used| && used[slot]
    ensures slot !in free
  {
    assert slot !in FreeSlots(used);
  }

  /** A used slot leaves room on the free list. */
  lemma UsedCount(used: seq<bool>, free: seq<nat>, slot: nat)
    requires Distinct(free) && Elements(free) == FreeSlots(used) && slot < |used| && used[slot]
    ensures |free| < |used|
  {
    assert FreeSlots(used[slot := false]) == FreeSlots(used) + {slot};
    FreeCount(used[slot := false]);
    UsedMember(used, free, slot);
    DistinctCard(free);
  }

  lemma NotOut(node: nat, generations: seq<nat>, used: seq<bool>, slot: nat, g: nat)
    requires |generations| == |used| && slot < |used| && !used[slot]
    ensures Handle(node, slot, g) !in HandlesOf(node, generations, used)
  {
  }

  lemma HandleAt(node: nat, generations: seq<nat>, used: seq<bool>, h: Handle)
    requires |generations| == |used|
    ensures h in HandlesOf(node, generations, used)
            <==> h.node == node && h.slot < |used| && used[h.slot] && generations[h.slot] == h.generation
  {
  }
}
