# CrazySAR swarm re-rooting, modelled in Dafny

`CrazySAR` drives a swarm of Crazyflie vehicles arranged as a
parent-pointer tree. The controller keeps three parallel lists:

- the graph, a list of `[node, parent]` pairs, where the leader is the one
  node that parents itself;
- one rod per node, the rigid offset from the node to its parent;
- one set of flap parameters per node (frequency, amplitude, phase).

`set_leader` re-roots the tree at another node in place. It walks the
parent pointers from the requested node up to the old leader and reverses
each pointer on that walk. Each rod and flap then moves one step down the
walk: the rod is negated and the flap amplitude changes sign. Finally
`send_graph` broadcasts every node's configuration and LED pattern as
parameter writes.

The project has four modules:

- `Topology` (`topology.dfy`) holds the data model and the first-match
  lookups and setters of the source's helper methods. It also defines the
  rooted-tree invariant and the walk to the root, and proves that the walk
  is unique, visits no node twice and ends at the node `_find_leader`
  returns.
- `Reroot` (`reroot.dfy`) states, entry by entry, the state `set_leader`
  leaves behind, as a function of the old state and the walk. It proves
  one step of the loop at a time, and then what the whole call achieves:
  - the tree stays a rooted tree whose leader is the requested node;
  - the old walk is reversed;
  - nothing off the walk changes;
  - re-rooting at the current leader changes nothing;
  - re-rooting back at the old leader undoes the change, as far as the
    code allows.
- `Registry` (`registry.dfy`) holds the radio URI of a node and the LED
  bitmasks. It proves that the node number can be read back from its URI,
  so distinct nodes have distinct URIs.
- `CrazySar` (`crazysar.dfy`) holds the controller as a class. Its fields
  are the three lists. Its methods are the source's loops over them:
  - the seven helper lookups and setters (`_find_leader`, `_get_parent`,
    `_set_parent`, `_get_rod`, `_set_and_flip_rod`, `_get_flap_params`,
    `_set_and_flip_flap_params`);
  - `send_graph`, which returns the writes it issues;
  - `set_leader`, proved against the `Reroot` functions with loop
    invariants.

Behaviour of the code that the model keeps as it is:

- `set_leader` never writes the new leader's own rod and flap, so the new
  leader keeps them. Each later node of the walk takes the flipped value
  of its former child.
- Because of that, the old leader's own rod and flap are overwritten, and
  re-rooting back does not restore them. `Reroot.RerootRoundTrip`
  restores every parent exactly, and every other rod and flap exactly.
- `_find_leader` returns the node of the first self-parenting entry, or
  `None` when there is none.
- `set_leader` never returns when the requested node is absent. It also
  never returns when the walk from that node never meets the entry that
  `_find_leader` returned. `SetLeader` requires the node to be present and
  the graph to be a rooted tree:
  - distinct node ids;
  - one self-parenting node;
  - every node reaching that node.

  The rooted tree is the data model's invariant, chosen as the
  precondition. It is more than termination needs: for example, a
  disconnected cycle elsewhere in the graph does not stop the loop.

## Model

| member | source | states |
|---|---|---|
| Topology.NegatedInvolution | src/hyunlabutils/crazySAR.py:123-127 | negating a rod twice gives the rod back, so two traversals of an edge cancel |
| Topology.AmpFlippedInvolution | src/hyunlabutils/crazySAR.py:134-138 | flipping the amplitude twice gives the flap back; frequency and phase are never changed |
| Topology.Position | src/hyunlabutils/crazySAR.py:107-110 | the index found is the first occurrence of the node, and none is found exactly when the node is absent |
| Topology.LeaderIndex | src/hyunlabutils/crazySAR.py:102-105 | the index found is the first self-parenting entry, and none is found exactly when no entry parents itself |
| Topology.ParentAfterWithParent | src/hyunlabutils/crazySAR.py:112-116 | after a parent update the updated node reads the new parent, every other node reads its old parent, and an absent node changes nothing |
| Topology.ValueAfterPutAt | src/hyunlabutils/crazySAR.py:123-138 | after a rod or flap update the updated node reads the stored value, and every other node reads its old value |
| Topology.PositionOfDistinct | src/hyunlabutils/crazySAR.py:107-110 | with distinct node ids the first-match lookup of the node at index m finds m |
| Topology.RootPathUnique | src/hyunlabutils/crazySAR.py:67-80 | two walks up the parent pointers from the same node are the same walk |
| Topology.RootPathDistinct | src/hyunlabutils/crazySAR.py:67-80 | the walk from a node to the root visits no node twice |
| Topology.RootPathNodesPresent | src/hyunlabutils/crazySAR.py:67-80 | every node on a walk to the root is present in the graph, so each lookup of the loop finds its entry |
| Topology.LeaderIsPathEnd | src/hyunlabutils/crazySAR.py:47-67 | in a graph with one self-parenting node, the leader found is the node at which every walk stops |
| Reroot.RepointFirst | src/hyunlabutils/crazySAR.py:52-56 | making the requested node parent itself re-points the first node of the walk and nothing else |
| Reroot.RepointNext | src/hyunlabutils/crazySAR.py:67-69 | the loop reads the next node's original parent, and pointing that node back at its predecessor extends the re-pointed part of the walk by one |
| Reroot.ShiftNext | src/hyunlabutils/crazySAR.py:71-77 | the loop reads the next node's original value, and storing the flipped value of its predecessor extends the shifted part of the walk by one |
| Reroot.ShiftedNone | src/hyunlabutils/crazySAR.py:58-62 | shifting over the walk's first node alone changes nothing. So the setup at lines 58-62 reads the original values, and the new leader keeps its own rod and flap |
| Reroot.WalkStart | src/hyunlabutils/crazySAR.py:47-56 | when the requested node is not the leader, its walk has at least one step and ends at the leader found, and the first parent update starts the re-pointing |
| Reroot.RepointStep | src/hyunlabutils/crazySAR.py:67-80 | each turn of the loop extends the re-pointed walk by one node, and the loop stops exactly when it reaches the old leader |
| Reroot.ShiftStep | src/hyunlabutils/crazySAR.py:71-77 | each turn of the loop moves the flipped original value one node further along the walk, read through the graph as updated so far |
| Reroot.RerootedParents | src/hyunlabutils/crazySAR.py:52-80 | after re-rooting, the requested node parents itself, every later node of the old walk points at its predecessor, every node off the walk keeps its parent, and the node order is unchanged |
| Reroot.RerootedShift | src/hyunlabutils/crazySAR.py:58-77 | after re-rooting, every later node of the old walk holds the flipped original value of its former child, the new leader keeps its value, and every node off the walk keeps its value |
| Reroot.ReversedPrefixIsRootPath | src/hyunlabutils/crazySAR.py:67-80 | after re-rooting, each prefix of the old walk, read backwards, is a walk to the new leader |
| Reroot.WalkReachesAfterReroot | src/hyunlabutils/crazySAR.py:43-80 | after re-rooting, every node that reached the old leader reaches a root |
| Reroot.RerootedLeaderUnique | src/hyunlabutils/crazySAR.py:52-80 | after re-rooting, at most one node parents itself, because the old leader's self-loop is replaced |
| Reroot.RerootPreservesTree | src/hyunlabutils/crazySAR.py:43-80 | re-rooting keeps the graph a rooted tree, and afterwards the leader found is the requested node |
| Reroot.OldLeaderPathReversed | src/hyunlabutils/crazySAR.py:67-80 | after re-rooting, the walk from the old leader is the old walk reversed |
| Reroot.RerootAtLeader | src/hyunlabutils/crazySAR.py:47-50 | re-rooting at the current leader leaves the graph, rods and flaps unchanged |
| Reroot.RepointBack | src/hyunlabutils/crazySAR.py:52-80 | re-pointing along the reversed walk restores every graph entry |
| Reroot.ShiftBack | src/hyunlabutils/crazySAR.py:58-77 | shifting back along the reversed walk restores every rod or flap except the old leader's own |
| Reroot.RerootRoundTrip | src/hyunlabutils/crazySAR.py:43-88 | re-rooting at a node and then back at the old leader restores every parent exactly, and every rod and flap except the old leader's own, which keeps the value the first re-rooting gave it |
| Registry.LedFor | src/hyunlabutils/crazySAR.py:38-41 | the leader bitmask is sent exactly for a self-parenting entry, and the follower bitmask exactly for every other entry |
| Registry.Format02dRoundTrip | src/hyunlabutils/crazySAR.py:26 | the two-digit URI suffix reads back as the node number, negative numbers and numbers of three or more digits included |
| Registry.UriRoundTrip | src/hyunlabutils/crazySAR.py:26 | the node can be read back from its radio URI |
| Registry.UriInjective | src/hyunlabutils/crazySAR.py:18-26 | two nodes have the same URI exactly when they are the same node, so each URI lookup reaches the intended vehicle |
| CrazySar.NodeWritesDistinctNames | src/hyunlabutils/crazySAR.py:27-41 | the nine writes for one vehicle go to that vehicle and set nine different parameter names, so none overwrites another |
| CrazySar.GraphWrites | src/hyunlabutils/crazySAR.py:25-36 | the broadcast has nine writes per entry |
| CrazySar.GraphWritesAt | src/hyunlabutils/crazySAR.py:25-41 | write k of the broadcast for entry i sits at position 9*i+k, and is addressed to that entry's node |
| CrazySar.LeaderLed | src/hyunlabutils/crazySAR.py:38-41 | in a tree led by `leader`, the broadcast gives the leader the leader bitmask and every other node the follower bitmask |
| CrazySar.CrazySar.constructor | src/hyunlabutils/crazySAR.py:11-16 | the controller starts with the graph, rods and flaps it is given |
| CrazySar.CrazySar.FindLeader | src/hyunlabutils/crazySAR.py:102-105 | the scan returns the node of the first self-parenting entry, or None |
| CrazySar.CrazySar.GetParent | src/hyunlabutils/crazySAR.py:107-110 | the scan returns the parent of the first entry for the node, or None |
| CrazySar.CrazySar.SetParent | src/hyunlabutils/crazySAR.py:112-116 | only the first entry for the node gets the new parent; rods and flaps are untouched |
| CrazySar.CrazySar.GetRod | src/hyunlabutils/crazySAR.py:118-121 | the scan returns the rod at the index of the first entry for the node, or None |
| CrazySar.CrazySar.SetAndFlipRod | src/hyunlabutils/crazySAR.py:123-127 | the node's rod becomes the negation of the given rod; graph and flaps are untouched |
| CrazySar.CrazySar.GetFlapParams | src/hyunlabutils/crazySAR.py:129-132 | the scan returns the flap parameters at the index of the first entry for the node, or None |
| CrazySar.CrazySar.SetAndFlipFlapParams | src/hyunlabutils/crazySAR.py:134-138 | the node's flap becomes the given one with its amplitude negated; graph and rods are untouched |
| CrazySar.CrazySar.SendGraph | src/hyunlabutils/crazySAR.py:21-41 | the writes issued are, entry by entry in list order, node, parent, rod, flap and LED bitmask |
| CrazySar.CrazySar.SetLeader | src/hyunlabutils/crazySAR.py:43-88 | the new graph, rods and flaps are the re-rooted state, the graph is again a rooted tree led by the requested node, and the configuration is broadcast unless the node already led |

## Left out

- The Crazyflie library is not part of this model: the `Swarm` object, the
  `cflib` link, the `cf.param.set_value` calls and the `_cfs` table. A
  parameter write is a value `ParamWrite(node, param, value)` that
  `SendGraph` returns. It is addressed by node, not by URI string, and
  `Registry.UriInjective` shows the two are interchangeable.
- The `self.leader` handle (lines 18-19 and 82-83) is a lookup of the
  leader's link object in `_cfs`. With `_cfs` left out, it is left out too.
  The missing-key error of that lookup is also left out, as is the
  `TypeError` line 18 raises when no entry parents itself, since
  `None` cannot be formatted with `02d`. The model's constructor accepts
  such a graph.
- The two status `print` calls at the end of `set_leader` (lines 85-86)
  are output only.
- `set_root` and `LED_ROOT` (lines 8 and 90-100) are left out. `set_root`
  sets the vehicle's `crazysar.is_root` parameter to 1 and its
  `led.bitmask` to `LED_ROOT`. It then sends a notify-setpoint-stop and a
  zero relative `go_to`. All of this is radio output to one vehicle, and
  none of it reads or changes the graph, rods or flaps.
- The other files of the repository (`base_flight.py`,
  `xbox360_controller.py`, `mocap_thread.py`, `mocap_thread2.py`,
  `avp.py`) are not part of this model: they are flight, input and
  motion-capture code around the controller.
- Concurrency: the broadcast is a sequential loop in the source, and is
  modelled as one.
- Aliasing: `_set_parent` rewrites the inner `[node, parent]` list in
  place, which a caller holding that list would see. Entries are values
  here.
- The initial values `temp3 = 0` and `temp_rod2 = [0, 0, 0]` (lines
  64-65) are overwritten before they are read, so they are not modelled.
- Rods are modelled with unbounded integer components and flaps with real
  numbers. Floating-point rounding is not modelled; negation is exact in
  both.
- CrazySar.CrazySar.SetLeader: requires the requested node to be present
  and the graph to be a rooted tree. The source's `while` loop never
  returns when the node is absent, or when its walk misses the
  self-parenting entry `_find_leader` returned. The rest of the rooted-tree
  invariant (distinct ids, one root, every node reaching it) is the data
  model's invariant, chosen as the precondition. It is not needed for
  termination, so some graphs on which the source does return are
  excluded. It is `RerootedGraph`/`RerootedValues` that say what the method
  leaves behind; they are ghost, since they pick the walk from an
  existential.
- CrazySar.CrazySar.GetRod, CrazySar.CrazySar.GetFlapParams,
  CrazySar.CrazySar.SetAndFlipRod, CrazySar.CrazySar.SetAndFlipFlapParams,
  CrazySar.CrazySar.SendGraph: require the class invariant `Valid()`,
  that the three lists have equal length. It is a chosen invariant. The
  source accepts longer rod or flap lists. It raises an index error only
  when the list a helper touches is shorter than the matched index, and
  `_get_rod`/`_set_and_flip_rod` never read `flap_params`.
- Reroot.RerootRoundTrip: does not claim that the old leader's own rod and
  flap come back. The code overwrites them, and they cannot be restored.
