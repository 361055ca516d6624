/** Planning which core each reactor shard runs on: round-robin over NUMA nodes, and within a
    node round-robin over its cores. */
module Placement {
  import opened Basics
  import opened Seqs

  datatype Core = Core(coreId: nat, node: nat)
  datatype Binding = Binding(shard: nat, coreId: nat, node: nat)
  datatype PlanFallback = TopologyUnavailable | TopologyEmpty | SingleNumaNode
  datatype Manifest = Manifest(shardCount: nat, nodeCount: nat, bindings: seq<Binding>, fallback: Option<PlanFallback>)

  // ---- The layout a topology stands for ----

  datatype Node = Node(id: nat, cores: seq<nat>)

  function NodesOf(cores: set<Core>): set<nat> {
    set c | c in cores :: c.node
  }

  function CoresOn(cores: set<Core>, node: nat): set<nat> {
    set c | c in cores && c.node == node :: c.coreId
  }

  /** The nodes in ascending order, each with its cores in ascending order. */
  function Layout(cores: set<Core>): (nodes: seq<Node>)
    ensures |nodes| == |NodesOf(cores)|
  {
    var ids := Ascending(NodesOf(cores));
    seq(|ids|, i requires 0 <= i < |ids| => Node(ids[i], Ascending(CoresOn(cores, ids[i]))))
  }

  ghost predicate Usable(nodes: seq<Node>) {
    && nodes != []
    && (forall j | 0 <= j < |nodes| :: nodes[j].cores != [] && IsAscending(nodes[j].cores))
    && (forall i, j | 0 <= i < j < |nodes| :: nodes[i].id < nodes[j].id)
  }

  lemma LayoutUsable(cores: set<Core>)
    requires cores != {}
    ensures Usable(Layout(cores))
    ensures forall j, k | 0 <= j < |Layout(cores)| && 0 <= k < |Layout(cores)[j].cores| ::
              Core(Layout(cores)[j].cores[k], Layout(cores)[j].id) in cores
  {
    var ids, nodes := Ascending(NodesOf(cores)), Layout(cores);
    var some :| some in cores;
    assert some.node in NodesOf(cores);
    forall j | 0 <= j < |nodes|
      ensures nodes[j].cores != [] && IsAscending(nodes[j].cores)
      ensures forall k | 0 <= k < |nodes[j].cores| :: Core(nodes[j].cores[k], nodes[j].id) in cores
    {
      assert ids[j] in Elements(ids);
      var c :| c in cores && c.node == ids[j];
      assert c.coreId in CoresOn(cores, ids[j]);
      forall k | 0 <= k < |nodes[j].cores| ensures Core(nodes[j].cores[k], nodes[j].id) in cores {
        assert nodes[j].cores[k] in Elements(nodes[j].cores);
        var d :| d in cores && d.node == ids[j] && d.coreId == nodes[j].cores[k];
        assert d == Core(nodes[j].cores[k], nodes[j].id);
      }
    }
  }

  /** Where one shard goes. */
  function Place(nodes: seq<Node>, shard: nat): Binding
    requires Usable(nodes)
  {
    var node := nodes[shard % |nodes|];
    Binding(shard, node.cores[shard / |nodes| % |node.cores|], node.id)
  }

  /** A shard is only ever placed on a core and node that the topology pairs. */
  lemma PlaceIsReal(cores: set<Core>, shard: nat)
    requires cores != {}
    ensures Usable(Layout(cores))
    ensures Core(Place(Layout(cores), shard).coreId, Place(Layout(cores), shard).node) in cores
  {
    LayoutUsable(cores);
  }

  /** Nor is any core left out of the round. */
  lemma LayoutIsComplete(cores: set<Core>, c: Core)
    requires c in cores
    ensures exists j, k :: 0 <= j < |Layout(cores)| && 0 <= k < |Layout(cores)[j].cores|
                           && Layout(cores)[j].id == c.node && Layout(cores)[j].cores[k] == c.coreId
  {
    var ids := Ascending(NodesOf(cores));
    assert c.node in NodesOf(cores);
    assert c.node in Elements(ids);
    var j :| 0 <= j < |ids| && ids[j] == c.node;
    assert c.coreId in CoresOn(cores, c.node);
    assert c.coreId in Elements(Layout(cores)[j].cores);
    var k :| 0 <= k < |Layout(cores)[j].cores| && Layout(cores)[j].cores[k] == c.coreId;
  }

  /** The first shard runs on the lowest core of the lowest node. */
  lemma PlaceFirst(nodes: seq<Node>)
    requires Usable(nodes)
    ensures Place(nodes, 0) == Binding(0, nodes[0].cores[0], nodes[0].id)
  {
    DivModUnique(0, |nodes|, 0, 0);
    DivModUnique(0, |nodes[0].cores|, 0, 0);
  }

  /** The next shard goes to the next node, and the next one on the same node to its next core,
      starting over after the last. */
  lemma RoundRobin(nodes: seq<Node>, s: nat, j: nat, k: nat)
    requires Usable(nodes) && j < |nodes| && k < |nodes[j].cores|
    requires Place(nodes, s) == Binding(s, nodes[j].cores[k], nodes[j].id)
    ensures Place(nodes, s + 1).node == nodes[if j + 1 == |nodes| then 0 else j + 1].id
    ensures var cores := nodes[j].cores;
            Place(nodes, s + |nodes|) == Binding(s + |nodes|, cores[if k + 1 == |cores| then 0 else k + 1], nodes[j].id)
  {
    var n := |nodes|;
    var q, r := s / n, s % n;
    var cores := nodes[r].cores;
    assert r == j;
    AscendingAt(cores, k, q % |cores|);
    DivModNext(s, n);
    assert s == n * q + r;
    assert s + n == n * (q + 1) + r;
    DivModUnique(s + n, n, q + 1, r);
    DivModNext(q, |cores|);
  }

  // ---- The planner ----

  function Default(shardCount: nat, reason: PlanFallback): Manifest {
    Manifest(shardCount, 1, seq(shardCount, s requires 0 <= s => Binding(s, s, 0)), Some(reason))
  }

  /** The plan depends on the topology only through its set of core and node pairs. */
  method Plan(shardCount: nat, topology: Option<seq<Core>>) returns (m: Manifest)
    ensures shardCount == 0 ==> m == Manifest(0, 0, [], None)
    ensures shardCount > 0 && (topology.None? || topology.value == []) ==>
              && m.shardCount == shardCount && m.nodeCount == 1 && |m.bindings| == shardCount
              && (forall s | 0 <= s < shardCount :: m.bindings[s] == Binding(s, s, 0))
              && m.fallback == Some(if topology.None? then TopologyUnavailable else TopologyEmpty)
    ensures shardCount > 0 && topology.Some? && topology.value != [] ==>
              var nodes := Layout(Elements(topology.value));
              && Usable(nodes) && m.shardCount == shardCount && m.nodeCount == |nodes|
              && |m.bindings| == shardCount
              && (forall s | 0 <= s < shardCount :: m.bindings[s] == Place(nodes, s))
              && (forall b | b in m.bindings :: Core(b.coreId, b.node) in topology.value)
              && m.fallback == if |nodes| == 1 then Some(SingleNumaNode) else None
  {
    hide Layout;
    if shardCount == 0 {
      return Manifest(0, 0, [], None);
    }
    if topology.None? {
      return Default(shardCount, TopologyUnavailable);
    }
    if topology.value == [] {
      return Default(shardCount, TopologyEmpty);
    }
    var nodes := GroupByNode(topology.value);
    assert topology.value[0] in Elements(topology.value);
    LayoutUsable(Elements(topology.value));
    var bindings: seq<Binding> := [];
    for shard := 0 to shardCount
      invariant |bindings| == shard
      invariant forall s | 0 <= s < shard :: bindings[s] == Place(nodes, s)
    {
      var node := nodes[shard % |nodes|];
      bindings := bindings + [Binding(shard, node.cores[shard / |nodes| % |node.cores|], node.id)];
    }
    forall s | 0 <= s < shardCount
      ensures Core(bindings[s].coreId, bindings[s].node) in topology.value
    {
      PlaceIsReal(Elements(topology.value), s);
    }
    m := Manifest(shardCount, |nodes|, bindings, if |nodes| == 1 then Some(SingleNumaNode) else None);
  }

  method CollectByNode(cores: seq<Core>) returns (byNode: map<nat, seq<nat>>)
    ensures byNode.Keys == NodesOf(Elements(cores))
    ensures forall n | n in byNode :: Elements(byNode[n]) == CoresOn(Elements(cores), n)
  {
    hide NodesOf, CoresOn, Elements;
    byNode := map[];
    GroupNone();
    for i := 0 to |cores|
      invariant byNode.Keys == NodesOf(Elements(cores[..i]))
      invariant forall n | n in byNode :: Elements(byNode[n]) == CoresOn(Elements(cores[..i]), n)
    {
      var core := cores[i];
      GroupStep(cores[..i], core);
      assert cores[..i + 1] == cores[..i] + [core];
      var known := if core.node in byNode then byNode[core.node] else [];
      ElementsSnoc(known, core.coreId);
      byNode := byNode[core.node := known + [core.coreId]];
    }
    assert cores[..|cores|] == cores;
  }

  /** Collects the cores of each node, then sorts and removes duplicates. */
  method GroupByNode(cores: seq<Core>) returns (nodes: seq<Node>)
    ensures nodes == Layout(Elements(cores))
  {
    hide NodesOf, CoresOn, Elements, Layout;
    var byNode := CollectByNode(cores);
    var ids := Ascending(byNode.Keys);
    AscendingMembers(byNode.Keys);
    nodes := [];
    for i := 0 to |ids|
      invariant |nodes| == i
      invariant forall k | 0 <= k < i :: nodes[k] == Layout(Elements(cores))[k]
    {
      LayoutAt(Elements(cores), i);
      nodes := nodes + [Node(ids[i], Ascending(Elements(byNode[ids[i]])))];
    }
  }

  lemma LayoutAt(cores: set<Core>, i: nat)
    requires i < |NodesOf(cores)|
    ensures var id := Ascending(NodesOf(cores))[i]; Layout(cores)[i] == Node(id, Ascending(CoresOn(cores, id)))
  {
  }

  lemma AscendingMembers(s: set<nat>)
    ensures forall i | 0 <= i < |Ascending(s)| :: Ascending(s)[i] in s
  {
    assert forall i | 0 <= i < |Ascending(s)| :: Ascending(s)[i] in Elements(Ascending(s));
  }

  lemma ElementsSnoc(s: seq<nat>, x: nat)
    ensures Elements(s + [x]) == Elements(s) + {x}
    ensures Elements<nat>([]) == {}
  {
  }

  lemma GroupNone()
    ensures NodesOf(Elements<Core>([])) == {}
  {
  }

  lemma GroupStep(before: seq<Core>, core: Core)
    ensures NodesOf(Elements(before + [core])) == NodesOf(Elements(before)) + {core.node}
    ensures forall n :: CoresOn(Elements(before + [core]), n)
                        == CoresOn(Elements(before), n) + if n == core.node then {core.coreId} else {}
    ensures core.node !in NodesOf(Elements(before)) ==> CoresOn(Elements(before), core.node) == {}
  {
    assert Elements(before + [core]) == Elements(before) + {core};
  }

  // ---- Round-robin counting ----

  /** How many of `0..total` leave remainder `r`. */
  function Share(total: nat, n: nat, r: nat): nat
    requires n > 0
  {
    if total == 0 then 0 else Share(total - 1, n, r) + if (total - 1) % n == r then 1 else 0
  }

  lemma DivModNext(a: nat, n: nat)
    requires n > 0
    ensures a % n == n - 1 ==> (a + 1) / n == a / n + 1 && (a + 1) % n == 0
    ensures a % n < n - 1 ==> (a + 1) / n == a / n && (a + 1) % n == a % n + 1
  {
    var q, r := a / n, a % n;
    assert a == n * q + r;
    if r == n - 1 {
      assert a + 1 == n * (q + 1);
      DivModUnique(a + 1, n, q + 1, 0);
    } else {
      DivModUnique(a + 1, n, q, r + 1);
    }
  }

  /** Round-robin gives every turn the rounded-down share, and one more to the first few. */
  lemma {:induction false} ShareFormula(total: nat, n: nat, r: nat)
    requires n > 0 && r < n
    ensures Share(total, n, r) == total / n + if r < total % n then 1 else 0
  {
    if total == 0 {
      DivModUnique(0, n, 0, 0);
    } else {
      ShareFormula(total - 1, n, r);
      DivModNext(total - 1, n);
    }
  }

  lemma SharesEven(total: nat, n: nat, r: nat, t: nat)
    requires n > 0 && r < n && t < n
    ensures Share(total, n, r) <= Share(total, n, t) + 1
  {
    ShareFormula(total, n, r);
    ShareFormula(total, n, t);
  }

  /** How many of the shards `0..total` run on core `k` of node `j`. */
  function OnCore(nodes: seq<Node>, total: nat, j: nat, k: nat): nat
    requires Usable(nodes) && j < |nodes| && k < |nodes[j].cores|
  {
    if total == 0 then 0
    else
      var b := Place(nodes, total - 1);
      OnCore(nodes, total - 1, j, k) + if b.node == nodes[j].id && b.coreId == nodes[j].cores[k] then 1 else 0
  }

  function OnNode(nodes: seq<Node>, total: nat, j: nat): nat
    requires Usable(nodes) && j < |nodes|
  {
    if total == 0 then 0
    else OnNode(nodes, total - 1, j) + if Place(nodes, total - 1).node == nodes[j].id then 1 else 0
  }

  lemma {:induction false} OnNodeIsShare(nodes: seq<Node>, total: nat, j: nat)
    requires Usable(nodes) && j < |nodes|
    ensures OnNode(nodes, total, j) == Share(total, |nodes|, j)
  {
    if total > 0 {
      OnNodeIsShare(nodes, total - 1, j);
    }
  }

  /** The shards of a node take its cores in turn. */
  lemma {:induction false} OnCoreIsShare(nodes: seq<Node>, total: nat, j: nat, k: nat)
    requires Usable(nodes) && j < |nodes| && k < |nodes[j].cores|
    ensures OnCore(nodes, total, j, k) == Share(Share(total, |nodes|, j), |nodes[j].cores|, k)
  {
    if total > 0 {
      OnCoreIsShare(nodes, total - 1, j, k);
      var s, cores := total - 1, nodes[j].cores;
      if s % |nodes| == j {
        ShareFormula(s, |nodes|, j);
        assert Share(total, |nodes|, j) == s / |nodes| + 1;
        AscendingAt(cores, s / |nodes| % |cores|, k);
      } else {
        assert nodes[s % |nodes|].id != nodes[j].id;
      }
    }
  }

  lemma AscendingAt(s: seq<nat>, i: nat, k: nat)
    requires IsAscending(s) && i < |s| && k < |s|
    ensures s[i] == s[k] <==> i == k
  {
  }

  /** Nodes differ by at most one shard, and so do the cores of any one node. */
  lemma PlacementIsBalanced(nodes: seq<Node>, total: nat, i: nat, j: nat, k: nat, m: nat)
    requires Usable(nodes) && i < |nodes| && j < |nodes| && k < |nodes[j].cores| && m < |nodes[j].cores|
    ensures OnNode(nodes, total, i) <= OnNode(nodes, total, j) + 1
    ensures OnCore(nodes, total, j, k) <= OnCore(nodes, total, j, m) + 1
  {
    OnNodeIsShare(nodes, total, i);
    OnNodeIsShare(nodes, total, j);
    SharesEven(total, |nodes|, i, j);
    OnCoreIsShare(nodes, total, j, k);
    OnCoreIsShare(nodes, total, j, m);
    SharesEven(Share(total, |nodes|, j), |nodes[j].cores|, k, m);
  }

  ghost predicate Exclusive(nodes: seq<Node>, total: nat)
    requires Usable(nodes)
  {
    forall s, t | 0 <= s < t < total ::
      Place(nodes, s).node != Place(nodes, t).node || Place(nodes, s).coreId != Place(nodes, t).coreId
  }

  lemma {:induction false} TwoOnCore(nodes: seq<Node>, total: nat, j: nat, k: nat)
    requires Usable(nodes) && j < |nodes| && k < |nodes[j].cores|
    ensures OnCore(nodes, total, j, k) >= 1 ==>
              (exists s :: 0 <= s < total
                 && Place(nodes, s).node == nodes[j].id && Place(nodes, s).coreId == nodes[j].cores[k])
    ensures OnCore(nodes, total, j, k) >= 2 ==> !Exclusive(nodes, total)
  {
    if total > 0 {
      TwoOnCore(nodes, total - 1, j, k);
      if OnCore(nodes, total, j, k) >= 2 && OnCore(nodes, total - 1, j, k) < 2 {
        var s :| 0 <= s < total - 1 && Place(nodes, s).node == nodes[j].id && Place(nodes, s).coreId == nodes[j].cores[k];
        assert Place(nodes, total - 1).node == nodes[j].id;
      }
    }
  }

  lemma {:induction false} CountsBothShards(nodes: seq<Node>, total: nat, s: nat, t: nat, j: nat, k: nat)
    requires Usable(nodes) && j < |nodes| && k < |nodes[j].cores| && s < t < total
    requires Place(nodes, s).node == nodes[j].id == Place(nodes, t).node
    requires Place(nodes, s).coreId == nodes[j].cores[k] == Place(nodes, t).coreId
    ensures OnCore(nodes, total, j, k) >= 2
    decreases total
  {
    if t < total - 1 {
      CountsBothShards(nodes, total - 1, s, t, j, k);
    } else {
      CountsShard(nodes, total - 1, s, j, k);
    }
  }

  lemma {:induction false} CountsShard(nodes: seq<Node>, total: nat, s: nat, j: nat, k: nat)
    requires Usable(nodes) && j < |nodes| && k < |nodes[j].cores| && s < total
    requires Place(nodes, s).node == nodes[j].id && Place(nodes, s).coreId == nodes[j].cores[k]
    ensures OnCore(nodes, total, j, k) >= 1
  {
    if s < total - 1 {
      CountsShard(nodes, total - 1, s, j, k);
    }
  }

  /** No two shards share a core exactly when no node gets more shards than it has cores. */
  lemma ExclusiveIff(nodes: seq<Node>, total: nat)
    requires Usable(nodes)
    ensures Exclusive(nodes, total) <==> forall j | 0 <= j < |nodes| :: OnNode(nodes, total, j) <= |nodes[j].cores|
  {
    if !Exclusive(nodes, total) {
      var s, t :| 0 <= s < t < total
        && Place(nodes, s).node == Place(nodes, t).node && Place(nodes, s).coreId == Place(nodes, t).coreId;
      var j := s % |nodes|;
      var k := s / |nodes| % |nodes[j].cores|;
      CountsBothShards(nodes, total, s, t, j, k);
      OnCoreIsShare(nodes, total, j, k);
      OnNodeIsShare(nodes, total, j);
      ShareAtMostOne(Share(total, |nodes|, j), |nodes[j].cores|, k);
    } else {
      forall j | 0 <= j < |nodes| ensures OnNode(nodes, total, j) <= |nodes[j].cores| {
        TwoOnCore(nodes, total, j, 0);
        OnCoreIsShare(nodes, total, j, 0);
        OnNodeIsShare(nodes, total, j);
        ShareAtMostOne(Share(total, |nodes|, j), |nodes[j].cores|, 0);
      }
    }
  }

  /** The first turn comes twice exactly when there are more turns than takers. */
  lemma ShareAtMostOne(total: nat, n: nat, r: nat)
    requires n > 0 && r < n
    ensures total <= n ==> Share(total, n, r) <= 1
    ensures total > n ==> Share(total, n, 0) >= 2
  {
    ShareFormula(total, n, r);
    ShareFormula(total, n, 0);
    if total < n {
      DivModUnique(total, n, 0, total);
    } else if total == n {
      DivModUnique(total, n, 1, 0);
    } else {
      assert total == n * (total / n) + total % n;
    }
  }

  /** Enough cores on the smallest node are always enough. */
  lemma ExclusiveWhenRoomy(nodes: seq<Node>, total: nat, least: nat)
    requires Usable(nodes) && forall j | 0 <= j < |nodes| :: least <= |nodes[j].cores|
    requires total <= |nodes| * least
    ensures Exclusive(nodes, total)
  {
    forall j | 0 <= j < |nodes| ensures OnNode(nodes, total, j) <= |nodes[j].cores| {
      OnNodeIsShare(nodes, total, j);
      ShareFormula(total, |nodes|, j);
      ShareBound(total, |nodes|, least);
    }
    ExclusiveIff(nodes, total);
  }

  lemma ShareBound(total: nat, n: nat, least: nat)
    requires n > 0 && total <= n * least
    ensures total / n + (if total % n > 0 then 1 else 0) <= least
  {
    FewTurns(n, total / n, total % n, least);
  }

  lemma FewTurns(n: nat, turns: nat, rest: nat, least: nat)
    requires n > 0 && n * turns + rest <= n * least
    ensures turns + (if rest > 0 then 1 else 0) <= least
  {
    if least < turns {
      MulSteps(n, least, turns);
    }
  }
}
