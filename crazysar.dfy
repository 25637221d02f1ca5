/** The `CrazySAR` swarm controller: it owns the graph list and the parallel
    rod and flap lists, re-roots the tree at a new leader in place, and
    broadcasts the whole configuration as parameter writes. */
module CrazySar {
  import opened Topology
  import opened Reroot
  import opened Registry

  /** A value handed to `cf.param.set_value`. */
  datatype ParamValue = IntParam(i: int) | RealParam(r: real)

  /** The parameters `send_graph` sets on every vehicle. */
  datatype Param = NodeId | ParentId | RodX | RodY | RodZ | FlapFreq | FlapAmp | FlapPhase | LedBitmask

  /** The parameter's name on the vehicle. */
  function ParamName(p: Param): string {
    match p
    case NodeId => "crazysar.node"
    case ParentId => "crazysar.parent"
    case RodX => "crazysar.rod_x"
    case RodY => "crazysar.rod_y"
    case RodZ => "crazysar.rod_z"
    case FlapFreq => "crazysar.flap_freq"
    case FlapAmp => "crazysar.flap_amp"
    case FlapPhase => "crazysar.flap_phase"
    case LedBitmask => "led.bitmask"
  }

  /** One parameter write, of `value` to the parameter named
      `ParamName(param)`, on the vehicle of `node`: the one whose radio URI
      is `Uri(node)` (distinct nodes have distinct URIs, by `UriInjective`). */
  datatype ParamWrite = ParamWrite(node: int, param: Param, value: ParamValue)

  /** The nine writes `send_graph` issues for one entry, in the order it
      issues them. */
  function NodeWrites(e: Entry, rod: Rod, flap: Flap): seq<ParamWrite> {
    [ ParamWrite(e.node, NodeId, IntParam(e.node)),
      ParamWrite(e.node, ParentId, IntParam(e.parent)),
      ParamWrite(e.node, RodX, IntParam(rod.x)),
      ParamWrite(e.node, RodY, IntParam(rod.y)),
      ParamWrite(e.node, RodZ, IntParam(rod.z)),
      ParamWrite(e.node, FlapFreq, RealParam(flap.freq)),
      ParamWrite(e.node, FlapAmp, RealParam(flap.amp)),
      ParamWrite(e.node, FlapPhase, RealParam(flap.phase)),
      ParamWrite(e.node, LedBitmask, IntParam(LedFor(e))) ]
  }

  /** The nine writes `send_graph` issues for one vehicle set nine different
      parameters, so none of them overwrites another. */
  lemma NodeWritesDistinctNames(e: Entry, rod: Rod, flap: Flap)
    ensures |NodeWrites(e, rod, flap)| == 9
    ensures var ws := NodeWrites(e, rod, flap);
            forall a, b :: 0 <= a < b < |ws| ==> ws[a].node == e.node && ParamName(ws[a].param) != ParamName(ws[b].param)
  {
  }

  /** Everything `send_graph` writes, entries in list order. */
  function GraphWrites(g: seq<Entry>, rods: seq<Rod>, flaps: seq<Flap>): (ws: seq<ParamWrite>)
    requires |rods| == |g| && |flaps| == |g|
    ensures |ws| == 9 * |g|
    decreases |g|
  {
    if |g| == 0 then []
    else
      var n := |g| - 1;
      GraphWrites(g[..n], rods[..n], flaps[..n]) + NodeWrites(g[n], rods[n], flaps[n])
  }

  /** Write `k` of entry `i` sits at position `9 * i + k`. */
  lemma {:induction false} GraphWritesAt(g: seq<Entry>, rods: seq<Rod>, flaps: seq<Flap>, i: nat, k: nat)
    requires |rods| == |g| && |flaps| == |g| && i < |g| && k < 9
    ensures GraphWrites(g, rods, flaps)[9 * i + k] == NodeWrites(g[i], rods[i], flaps[i])[k]
    decreases |g|
  {
    var n := |g| - 1;
    var front := GraphWrites(g[..n], rods[..n], flaps[..n]);
    assert GraphWrites(g, rods, flaps) == front + NodeWrites(g[n], rods[n], flaps[n]);
    if i < n {
      GraphWritesAt(g[..n], rods[..n], flaps[..n], i, k);
      assert g[..n][i] == g[i] && rods[..n][i] == rods[i] && flaps[..n][i] == flaps[i];
    }
  }

  /** In a tree whose leader is `leader`, `send_graph` gives the leader LED
      pattern to the leader's entry and the follower pattern to every other. */
  lemma LeaderLed(g: seq<Entry>, rods: seq<Rod>, flaps: seq<Flap>, leader: int)
    requires |rods| == |g| && |flaps| == |g|
    requires Distinct(Nodes(g)) && UniqueLeader(g) && LeaderOf(g) == Some(leader)
    ensures var ws := GraphWrites(g, rods, flaps);
            forall i :: 0 <= i < |g| ==>
              ws[9 * i + 8] == ParamWrite(g[i].node, LedBitmask, IntParam(if g[i].node == leader then LED_LEADER else LED_FOLLOWER))
  {
    var ws := GraphWrites(g, rods, flaps);
    var r := LeaderIndex(g).value;
    forall i | 0 <= i < |g|
      ensures ws[9 * i + 8] == ParamWrite(g[i].node, LedBitmask, IntParam(if g[i].node == leader then LED_LEADER else LED_FOLLOWER))
    {
      GraphWritesAt(g, rods, flaps, i, 8);
      assert g[i].node == leader <==> i == r by {
        assert Nodes(g)[i] == g[i].node && Nodes(g)[r] == g[r].node;
      }
      assert g[i].node == g[i].parent <==> i == r;
    }
  }

  class CrazySar {
    /** `[node, parent]` pairs. */
    var graph: seq<Entry>
    /** `rods[i]` belongs to the node of `graph[i]`. */
    var rods: seq<Rod>
    /** `flaps[i]` belongs to the node of `graph[i]`. */
    var flaps: seq<Flap>

    /** The three lists are indexed alike. */
    predicate Valid()
      reads this
    {
      |rods| == |graph| && |flaps| == |graph|
    }

    constructor (graph: seq<Entry>, rods: seq<Rod>, flaps: seq<Flap>)
      ensures this.graph == graph && this.rods == rods && this.flaps == flaps
    {
      this.graph := graph;
      this.rods := rods;
      this.flaps := flaps;
    }

    /** `_find_leader`: the node of the first self-parenting entry; None
        (Python's implicit `None`) when there is none. */
    method FindLeader() returns (leader: Option<int>)
      ensures leader == LeaderOf(graph)
    {
      for i := 0 to |graph|
        invariant forall j :: 0 <= j < i ==> graph[j].node != graph[j].parent
      {
        if graph[i].node == graph[i].parent {
          assert LeaderIndex(graph) == Some(i);
          return Some(graph[i].node);
        }
      }
      return None;
    }

    /** `_get_parent`: the parent of the first entry for `node`, or None. */
    method GetParent(node: int) returns (parent: Option<int>)
      ensures parent == ParentIn(graph, node)
    {
      for i := 0 to |graph|
        invariant forall j :: 0 <= j < i ==> Nodes(graph)[j] != node
      {
        if graph[i].node == node {
          assert IndexOf(graph, node) == Some(i);
          return Some(graph[i].parent);
        }
      }
      return None;
    }

    /** `_set_parent`: rewrites the first entry for `node`; nothing when the
        node is absent. */
    method SetParent(node: int, newParent: int)
      modifies this
      ensures graph == WithParent(old(graph), node, newParent)
      ensures rods == old(rods) && flaps == old(flaps)
    {
      for i := 0 to |graph|
        invariant graph == old(graph)
        invariant forall j :: 0 <= j < i ==> Nodes(graph)[j] != node
      {
        if graph[i].node == node {
          assert IndexOf(graph, node) == Some(i);
          graph := graph[i := Entry(graph[i].node, newParent)];
          return;
        }
      }
    }

    /** `_get_rod`: the rod at the index of the first entry for `node`. */
    method GetRod(node: int) returns (rod: Option<Rod>)
      requires Valid()
      ensures rod == ValueAt(graph, rods, node)
    {
      for i := 0 to |graph|
        invariant forall j :: 0 <= j < i ==> Nodes(graph)[j] != node
      {
        if graph[i].node == node {
          assert IndexOf(graph, node) == Some(i);
          return Some(rods[i]);
        }
      }
      return None;
    }

    /** `_set_and_flip_rod`: stores the negation of `newRod` for `node`. */
    method SetAndFlipRod(node: int, newRod: Rod)
      requires Valid()
      modifies this
      ensures rods == PutAt(old(graph), old(rods), node, Negated(newRod))
      ensures graph == old(graph) && flaps == old(flaps)
    {
      for i := 0 to |graph|
        invariant rods == old(rods)
        invariant forall j :: 0 <= j < i ==> Nodes(graph)[j] != node
      {
        if graph[i].node == node {
          assert IndexOf(graph, node) == Some(i);
          rods := rods[i := Rod(-newRod.x, -newRod.y, -newRod.z)];
          return;
        }
      }
    }

    /** `_get_flap_params`: the flap parameters of the first entry for `node`. */
    method GetFlapParams(node: int) returns (flap: Option<Flap>)
      requires Valid()
      ensures flap == ValueAt(graph, flaps, node)
    {
      for i := 0 to |graph|
        invariant forall j :: 0 <= j < i ==> Nodes(graph)[j] != node
      {
        if graph[i].node == node {
          assert IndexOf(graph, node) == Some(i);
          return Some(flaps[i]);
        }
      }
      return None;
    }

    /** `_set_and_flip_flap_params`: stores `newFlap` with its amplitude
        negated for `node`. */
    method SetAndFlipFlapParams(node: int, newFlap: Flap)
      requires Valid()
      modifies this
      ensures flaps == PutAt(old(graph), old(flaps), node, AmpFlipped(newFlap))
      ensures graph == old(graph) && rods == old(rods)
    {
      for i := 0 to |graph|
        invariant flaps == old(flaps)
        invariant forall j :: 0 <= j < i ==> Nodes(graph)[j] != node
      {
        if graph[i].node == node {
          assert IndexOf(graph, node) == Some(i);
          flaps := flaps[i := Flap(newFlap.freq, -newFlap.amp, newFlap.phase)];
          return;
        }
      }
    }

    /** `send_graph`: for every entry, in list order, its node, parent, rod,
        flap parameters and LED pattern, sent to the vehicle of that node. */
    method SendGraph() returns (writes: seq<ParamWrite>)
      requires Valid()
      ensures writes == GraphWrites(graph, rods, flaps)
    {
      writes := [];
      for i := 0 to |graph|
        invariant writes == GraphWrites(graph[..i], rods[..i], flaps[..i])
      {
        var node, parent := graph[i].node, graph[i].parent;
        var led;
        if node == parent {
          led := LED_LEADER;
        } else {
          led := LED_FOLLOWER;
        }
        writes := writes + [
          ParamWrite(node, NodeId, IntParam(node)),
          ParamWrite(node, ParentId, IntParam(parent)),
          ParamWrite(node, RodX, IntParam(rods[i].x)),
          ParamWrite(node, RodY, IntParam(rods[i].y)),
          ParamWrite(node, RodZ, IntParam(rods[i].z)),
          ParamWrite(node, FlapFreq, RealParam(flaps[i].freq)),
          ParamWrite(node, FlapAmp, RealParam(flaps[i].amp)),
          ParamWrite(node, FlapPhase, RealParam(flaps[i].phase)),
          ParamWrite(node, LedBitmask, IntParam(led))];
        assert graph[..i + 1][..i] == graph[..i] && rods[..i + 1][..i] == rods[..i] && flaps[..i + 1][..i] == flaps[..i];
      }
      assert graph[..|graph|] == graph && rods[..|rods|] == rods && flaps[..|flaps|] == flaps;
    }

    /** `set_leader`: makes `leader` parent itself and reverses every parent
        pointer on the old walk from `leader` to the previous leader; each
        node on that walk then takes the negated rod and the amplitude-flipped
        flap parameters that its old child on the walk had before the call.
        Calling it with the current leader changes nothing and sends nothing;
        otherwise the new configuration is broadcast. */
    method SetLeader(leader: int) returns (sent: seq<ParamWrite>)
      requires Valid() && RootedTree(graph) && Has(graph, leader)
      modifies this
      ensures Valid()
      ensures graph == RerootedGraph(old(graph), leader)
      ensures rods == RerootedValues(old(graph), old(rods), leader, Negated)
      ensures flaps == RerootedValues(old(graph), old(flaps), leader, AmpFlipped)
      ensures RootedTree(graph) && LeaderOf(graph) == Some(leader)
      ensures sent == if LeaderOf(old(graph)) == Some(leader) then [] else GraphWrites(graph, rods, flaps)
    {
      var prevLeader := FindLeader();
      if prevLeader == Some(leader) {
        RerootAtLeader(graph, rods, leader, Negated);
        RerootAtLeader(graph, flaps, leader, AmpFlipped);
        return [];
      }

      ghost var g0, rods0, flaps0 := graph, rods, flaps;
      TreeReaches(g0, leader);
      ghost var path := PathToRoot(g0, leader);
      ghost var k := |path| - 1;
      WalkStart(g0, path, k);
      RepointStep(g0, path, k, 0);
      ShiftedNone(g0, rods0, path, Negated);
      ShiftedNone(g0, flaps0, path, AmpFlipped);

      var parent := GetParent(leader);
      var temp1 := parent.value;
      SetParent(leader, leader);

      var grandparent := GetParent(temp1);
      var temp2 := grandparent.value;
      SetParent(temp1, leader);

      ShiftStep(g0, graph, rods0, path, k, 0, Negated);
      ShiftStep(g0, graph, flaps0, path, k, 0, AmpFlipped);
      SameNodesValueAt(g0, graph, rods0, leader);
      SameNodesValueAt(g0, graph, flaps0, leader);

      var rod1 := GetRod(temp1);
      var tempRod1 := rod1.value;
      var leaderRod := GetRod(leader);
      SetAndFlipRod(temp1, leaderRod.value);

      var flap1 := GetFlapParams(temp1);
      var tempFlap1 := flap1.value;
      var leaderFlap := GetFlapParams(leader);
      SetAndFlipFlapParams(temp1, leaderFlap.value);

      ghost var i := 1;
      while temp1 != prevLeader.value
        invariant Valid()
        invariant 1 <= i <= k && temp1 == path[i]
        invariant path[i] == path[k] <==> i == k
        invariant i < k ==> temp2 == path[i + 1]
        invariant graph == RepointedPrefix(g0, path, i)
        invariant rods == ShiftedPrefix(g0, rods0, path, i, Negated)
        invariant flaps == ShiftedPrefix(g0, flaps0, path, i, AmpFlipped)
        invariant ValueAt(g0, rods0, path[i]) == Some(tempRod1)
        invariant ValueAt(g0, flaps0, path[i]) == Some(tempFlap1)
        decreases k - i
      {
        RepointStep(g0, path, k, i);

        var next := GetParent(temp2);
        var temp3 := next.value;
        SetParent(temp2, temp1);

        ShiftStep(g0, graph, rods0, path, k, i, Negated);
        ShiftStep(g0, graph, flaps0, path, k, i, AmpFlipped);

        var rod2 := GetRod(temp2);
        var tempRod2 := rod2.value;
        SetAndFlipRod(temp2, tempRod1);
        tempRod1 := tempRod2;

        var flap2 := GetFlapParams(temp2);
        var tempFlap2 := flap2.value;
        SetAndFlipFlapParams(temp2, tempFlap1);
        tempFlap1 := tempFlap2;

        temp1 := temp2;
        temp2 := temp3;
        i := i + 1;
      }
      RerootPreservesTree(g0, leader);
      sent := SendGraph();
    }
  }
}
