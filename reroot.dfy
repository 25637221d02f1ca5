/** What `set_leader` leaves behind, stated entry by entry against the path
    L = P[0] -> P[1] -> ... -> P[k] = R from the requested leader L to the old
    leader R, and the properties of that state: the parents of the path are
    reversed, rods and flaps shift one step down the path with their sign
    flips, nothing off the path changes, the graph remains a rooted tree with
    leader L, and re-rooting back at R undoes the change. */
module Reroot {
  import opened Topology

  /** Entry `t` once the first `j + 1` nodes of `path` have been re-pointed:
      `path[0]` parents itself and `path[m]` (0 < m <= j) points back at
      `path[m - 1]`; every other entry is as in `g`. */
  function RepointedEntry(g: seq<Entry>, path: seq<int>, j: nat, t: nat): Entry
    requires t < |g|
  {
    var n := g[t].node;
    match Position(path, n)
    case None => g[t]
    case Some(m) =>
      if m > j then g[t]
      else if m == 0 then Entry(n, n)
      else Entry(n, path[m - 1])
  }

  function RepointedPrefix(g: seq<Entry>, path: seq<int>, j: nat): (h: seq<Entry>)
    ensures |h| == |g| && Nodes(h) == Nodes(g)
    ensures forall t :: 0 <= t < |g| ==> h[t] == RepointedEntry(g, path, j, t)
  {
    seq(|g|, t requires 0 <= t < |g| => RepointedEntry(g, path, j, t))
  }

  /** Element `t` of a parallel list once the first `j + 1` nodes of `path`
      have been re-pointed: `path[m]` (0 < m <= j) holds `flip` of the value
      `path[m - 1]` had; every other element, that of `path[0]` included, is
      as in `xs`. */
  function ShiftedValue<T>(g: seq<Entry>, xs: seq<T>, path: seq<int>, j: nat, flip: T -> T, t: nat): T
    requires |xs| == |g| && t < |g|
  {
    match Position(path, g[t].node)
    case None => xs[t]
    case Some(m) =>
      if m == 0 || m > j then xs[t]
      else match ValueAt(g, xs, path[m - 1])
        case None => xs[t]
        case Some(v) => flip(v)
  }

  function ShiftedPrefix<T>(g: seq<Entry>, xs: seq<T>, path: seq<int>, j: nat, flip: T -> T): (ys: seq<T>)
    requires |xs| == |g|
    ensures |ys| == |xs|
    ensures forall t :: 0 <= t < |xs| ==> ys[t] == ShiftedValue(g, xs, path, j, flip, t)
  {
    seq(|xs|, t requires 0 <= t < |xs| => ShiftedValue(g, xs, path, j, flip, t))
  }

  /** The graph after `set_leader(leader)`. */
  ghost function RerootedGraph(g: seq<Entry>, leader: int): seq<Entry>
    requires RootedTree(g) && Has(g, leader)
  {
    TreeReaches(g, leader);
    var path := PathToRoot(g, leader);
    RepointedPrefix(g, path, |path| - 1)
  }

  /** A parallel list (`rods` with `Negated`, `flap_params` with
      `AmpFlipped`) after `set_leader(leader)`. */
  ghost function RerootedValues<T>(g: seq<Entry>, xs: seq<T>, leader: int, flip: T -> T): seq<T>
    requires RootedTree(g) && Has(g, leader) && |xs| == |g|
  {
    TreeReaches(g, leader);
    var path := PathToRoot(g, leader);
    ShiftedPrefix(g, xs, path, |path| - 1, flip)
  }

  function Reverse(s: seq<int>): (r: seq<int>)
    ensures |r| == |s|
  {
    if s == [] then [] else [s[|s| - 1]] + Reverse(s[..|s| - 1])
  }

  /** Element `i` of the reversal is element `|s| - 1 - i` of `s`. */
  lemma {:induction false} ReverseAt(s: seq<int>, i: nat)
    requires i < |s|
    ensures Reverse(s)[i] == s[|s| - 1 - i]
    decreases |s|
  {
    if i > 0 {
      var t := s[..|s| - 1];
      ReverseAt(t, i - 1);
      assert Reverse(s)[i] == Reverse(t)[i - 1];
    }
  }

  // ---------------------------------------------------------------------
  // Lookups in a partly re-pointed state

  lemma RepointedParentIn(g: seq<Entry>, path: seq<int>, j: nat, x: int)
    ensures ParentIn(RepointedPrefix(g, path, j), x) ==
      match Position(path, x)
      case None => ParentIn(g, x)
      case Some(m) =>
        if m > j || !Has(g, x) then ParentIn(g, x)
        else if m == 0 then Some(x)
        else Some(path[m - 1])
  {
    var h := RepointedPrefix(g, path, j);
    assert IndexOf(h, x) == IndexOf(g, x);
    if Has(g, x) {
      var t := IndexOf(g, x).value;
      assert g[t].node == x && h[t] == RepointedEntry(g, path, j, t);
    }
  }

  lemma ShiftedValueIn<T>(g: seq<Entry>, xs: seq<T>, path: seq<int>, j: nat, flip: T -> T, x: int)
    requires |xs| == |g|
    ensures ValueAt(g, ShiftedPrefix(g, xs, path, j, flip), x) ==
      match Position(path, x)
      case None => ValueAt(g, xs, x)
      case Some(m) =>
        if m == 0 || m > j || !Has(g, x) then ValueAt(g, xs, x)
        else match ValueAt(g, xs, path[m - 1])
          case None => ValueAt(g, xs, x)
          case Some(v) => Some(flip(v))
  {
    if Has(g, x) {
      var t := IndexOf(g, x).value;
      assert g[t].node == x;
      assert ShiftedPrefix(g, xs, path, j, flip)[t] == ShiftedValue(g, xs, path, j, flip, t);
    }
  }

  // ---------------------------------------------------------------------
  // One step of the walk at a time, as the loop of set_leader takes them

  /** Making the requested leader parent itself starts the re-pointing. */
  lemma RepointFirst(g: seq<Entry>, path: seq<int>)
    requires Distinct(Nodes(g)) && Distinct(path) && |path| > 0 && Has(g, path[0])
    ensures WithParent(g, path[0], path[0]) == RepointedPrefix(g, path, 0)
  {
    var h := WithParent(g, path[0], path[0]);
    var e := RepointedPrefix(g, path, 0);
    var s := IndexOf(g, path[0]).value;
    PositionOfDistinct(path, 0);
    forall t | 0 <= t < |g|
      ensures h[t] == e[t]
    {
      if t != s {
        assert g[t].node != path[0];
      }
    }
  }

  /** Re-pointing `path[j + 1]` at `path[j]` extends the re-pointed prefix by
      one, and the parent it reads first is still its original one. */
  lemma RepointNext(g: seq<Entry>, path: seq<int>, j: nat)
    requires Distinct(Nodes(g)) && Distinct(path) && j + 1 < |path| && Has(g, path[j + 1])
    ensures ParentIn(RepointedPrefix(g, path, j), path[j + 1]) == ParentIn(g, path[j + 1])
    ensures WithParent(RepointedPrefix(g, path, j), path[j + 1], path[j]) == RepointedPrefix(g, path, j + 1)
  {
    var cur := RepointedPrefix(g, path, j);
    var h := WithParent(cur, path[j + 1], path[j]);
    var e := RepointedPrefix(g, path, j + 1);
    var s := IndexOf(g, path[j + 1]).value;
    PositionOfDistinct(path, j + 1);
    RepointedParentIn(g, path, j, path[j + 1]);
    assert IndexOf(cur, path[j + 1]) == Some(s);
    forall t | 0 <= t < |g|
      ensures h[t] == e[t]
    {
      if t != s {
        assert g[t].node != path[j + 1];
        assert h[t] == cur[t];
      }
    }
  }

  lemma ShiftedNone<T>(g: seq<Entry>, xs: seq<T>, path: seq<int>, flip: T -> T)
    requires |xs| == |g|
    ensures ShiftedPrefix(g, xs, path, 0, flip) == xs
  {
  }

  /** Storing `flip` of the old value of `path[j]` at `path[j + 1]` extends
      the shifted prefix by one, and the value it reads first is still the
      original one. */
  lemma ShiftNext<T>(g: seq<Entry>, xs: seq<T>, path: seq<int>, j: nat, flip: T -> T)
    requires |xs| == |g| && Distinct(Nodes(g)) && Distinct(path)
    requires j + 1 < |path| && Has(g, path[j]) && Has(g, path[j + 1])
    ensures ValueAt(g, ShiftedPrefix(g, xs, path, j, flip), path[j + 1]) == ValueAt(g, xs, path[j + 1])
    ensures PutAt(g, ShiftedPrefix(g, xs, path, j, flip), path[j + 1], flip(ValueAt(g, xs, path[j]).value))
            == ShiftedPrefix(g, xs, path, j + 1, flip)
  {
    var cur := ShiftedPrefix(g, xs, path, j, flip);
    var h := PutAt(g, cur, path[j + 1], flip(ValueAt(g, xs, path[j]).value));
    var e := ShiftedPrefix(g, xs, path, j + 1, flip);
    var s := IndexOf(g, path[j + 1]).value;
    PositionOfDistinct(path, j + 1);
    ShiftedValueIn(g, xs, path, j, flip, path[j + 1]);
    forall t | 0 <= t < |g|
      ensures h[t] == e[t]
    {
      if t != s {
        assert g[t].node != path[j + 1];
        assert h[t] == cur[t];
      } else {
        assert g[t].node == path[j + 1];
      }
    }
  }

  /** Before the loop of `set_leader`: when `path[0]` is not the current
      leader the walk has a step, whose end is the leader `_find_leader`
      returned, and `_set_parent(leader, leader)` re-points the first node. */
  lemma WalkStart(g: seq<Entry>, path: seq<int>, k: nat)
    requires Distinct(Nodes(g)) && UniqueLeader(g) && IsRootPath(g, path) && k == |path| - 1
    requires LeaderOf(g) != Some(path[0])
    ensures 1 <= k && LeaderOf(g) == Some(path[k])
    ensures ParentIn(g, path[0]) == Some(path[1])
    ensures WithParent(g, path[0], path[0]) == RepointedPrefix(g, path, 0)
  {
    LeaderIsPathEnd(g, path);
    RootPathDistinct(g, path);
    RootPathNodesPresent(g, path, 0);
    assert StepAt(g, path, 0);
    RepointFirst(g, path);
  }

  /** One turn of the loop of `set_leader` on the graph: the parent read for
      `path[i + 1]` is its old one, re-pointing it extends the prefix, and the
      loop stops exactly when `path[i + 1]` is the old leader. */
  lemma RepointStep(g: seq<Entry>, path: seq<int>, k: nat, i: nat)
    requires Distinct(Nodes(g)) && IsRootPath(g, path) && k == |path| - 1 && i < k
    ensures ParentIn(RepointedPrefix(g, path, i), path[i + 1]).Some?
    ensures i + 1 < k ==> ParentIn(RepointedPrefix(g, path, i), path[i + 1]) == Some(path[i + 2])
    ensures WithParent(RepointedPrefix(g, path, i), path[i + 1], path[i]) == RepointedPrefix(g, path, i + 1)
    ensures path[i + 1] == path[k] <==> i + 1 == k
  {
    RootPathDistinct(g, path);
    RootPathNodesPresent(g, path, i + 1);
    RepointNext(g, path, i);
    if i + 1 < k {
      assert StepAt(g, path, i + 1);
    }
  }

  /** One turn of the loop of `set_leader` on a parallel list, read through
      the graph `h` of that moment (same node column as `g`): the value read
      for `path[i + 1]` is its original one, and storing `flip` of the
      original value of `path[i]` there extends the shifted prefix. */
  lemma ShiftStep<T>(g: seq<Entry>, h: seq<Entry>, xs: seq<T>, path: seq<int>, k: nat, i: nat, flip: T -> T)
    requires Distinct(Nodes(g)) && IsRootPath(g, path) && k == |path| - 1 && i < k
    requires |xs| == |g| && |h| == |g| && Nodes(h) == Nodes(g)
    ensures Has(g, path[i]) && ValueAt(g, xs, path[i + 1]).Some?
    ensures ValueAt(h, ShiftedPrefix(g, xs, path, i, flip), path[i + 1]) == ValueAt(g, xs, path[i + 1])
    ensures PutAt(h, ShiftedPrefix(g, xs, path, i, flip), path[i + 1], flip(ValueAt(g, xs, path[i]).value))
            == ShiftedPrefix(g, xs, path, i + 1, flip)
  {
    RootPathDistinct(g, path);
    RootPathNodesPresent(g, path, i);
    RootPathNodesPresent(g, path, i + 1);
    ShiftNext(g, xs, path, i, flip);
    assert IndexOf(h, path[i + 1]) == IndexOf(g, path[i + 1]);
  }

  // ---------------------------------------------------------------------
  // The state set_leader leaves behind

  /** Parents after `set_leader(leader)`: the leader parents itself, each
      later node of the old path points back at its predecessor on it, and
      every node off the path keeps its parent; the node column, and so the
      order of the entries, is untouched. */
  lemma RerootedParents(g: seq<Entry>, leader: int)
    requires RootedTree(g) && Has(g, leader)
    ensures Reaches(g, leader)
    ensures var path := PathToRoot(g, leader);
            var h := RerootedGraph(g, leader);
            Nodes(h) == Nodes(g) &&
            ParentIn(h, leader) == Some(leader) &&
            (forall m :: 1 <= m < |path| ==> ParentIn(h, path[m]) == Some(path[m - 1])) &&
            (forall x :: x !in path ==> ParentIn(h, x) == ParentIn(g, x))
  {
    TreeReaches(g, leader);
    var path := PathToRoot(g, leader);
    var k := |path| - 1;
    var h := RerootedGraph(g, leader);
    RootPathDistinct(g, path);
    PositionOfDistinct(path, 0);
    RepointedParentIn(g, path, k, leader);
    forall m | 1 <= m < |path|
      ensures ParentIn(h, path[m]) == Some(path[m - 1])
    {
      PositionOfDistinct(path, m);
      RootPathNodesPresent(g, path, m);
      RepointedParentIn(g, path, k, path[m]);
    }
    forall x | x !in path
      ensures ParentIn(h, x) == ParentIn(g, x)
    {
      RepointedParentIn(g, path, k, x);
    }
  }

  /** Rods (with `Negated`) and flaps (with `AmpFlipped`) after
      `set_leader(leader)`: each later node of the old path holds the flipped
      ORIGINAL value of its former child, the new leader keeps its own value,
      and every node off the path keeps its value. */
  lemma RerootedShift<T>(g: seq<Entry>, xs: seq<T>, leader: int, flip: T -> T)
    requires RootedTree(g) && Has(g, leader) && |xs| == |g|
    ensures Reaches(g, leader)
    ensures var path := PathToRoot(g, leader);
            var ys := RerootedValues(g, xs, leader, flip);
            |ys| == |xs| &&
            ValueAt(g, ys, leader) == ValueAt(g, xs, leader) &&
            (forall m :: 0 <= m < |path| ==> Has(g, path[m])) &&
            (forall m :: 1 <= m < |path| ==> ValueAt(g, ys, path[m]) == Some(flip(ValueAt(g, xs, path[m - 1]).value))) &&
            (forall x :: x !in path ==> ValueAt(g, ys, x) == ValueAt(g, xs, x))
  {
    TreeReaches(g, leader);
    var path := PathToRoot(g, leader);
    var k := |path| - 1;
    var ys := RerootedValues(g, xs, leader, flip);
    RootPathDistinct(g, path);
    PositionOfDistinct(path, 0);
    ShiftedValueIn(g, xs, path, k, flip, leader);
    forall m | 0 <= m < |path|
      ensures Has(g, path[m])
    {
      RootPathNodesPresent(g, path, m);
    }
    forall m | 1 <= m < |path|
      ensures ValueAt(g, ys, path[m]) == Some(flip(ValueAt(g, xs, path[m - 1]).value))
    {
      PositionOfDistinct(path, m);
      RootPathNodesPresent(g, path, m);
      RootPathNodesPresent(g, path, m - 1);
      ShiftedValueIn(g, xs, path, k, flip, path[m]);
    }
    forall x | x !in path
      ensures ValueAt(g, ys, x) == ValueAt(g, xs, x)
    {
      ShiftedValueIn(g, xs, path, k, flip, x);
    }
  }

  lemma ReversePrefixStep(path: seq<int>, m: nat)
    requires 0 < m < |path|
    ensures Reverse(path[..m + 1]) == [path[m]] + Reverse(path[..m])
    ensures Reverse(path[..m])[0] == path[m - 1]
  {
    assert path[..m + 1][..m] == path[..m];
  }

  /** After re-pointing, a node of the walk has its predecessor on the walk
      as parent, and the first node parents itself. */
  lemma RepointedParentOnPath(g: seq<Entry>, path: seq<int>, k: nat, m: nat)
    requires IsRootPath(g, path) && k == |path| - 1 && m <= k
    ensures ParentIn(RepointedPrefix(g, path, k), path[m]) == Some(if m == 0 then path[0] else path[m - 1])
    ensures m > 0 ==> path[m] != path[m - 1]
  {
    RootPathDistinct(g, path);
    PositionOfDistinct(path, m);
    RootPathNodesPresent(g, path, m);
    RepointedParentIn(g, path, k, path[m]);
    if m > 0 {
      assert StepAt(g, path, m - 1);
    }
  }

  /** Read backwards, each prefix of the old path is a walk to the root of
      the re-pointed graph. */
  lemma {:induction false} ReversedPrefixIsRootPath(g: seq<Entry>, path: seq<int>, k: nat, m: nat)
    requires IsRootPath(g, path) && k == |path| - 1 && m <= k
    ensures IsRootPath(RepointedPrefix(g, path, k), Reverse(path[..m + 1]))
    decreases m
  {
    RepointedParentOnPath(g, path, k, m);
    if m == 0 {
      assert Reverse(path[..1]) == [path[0]];
    } else {
      ReversedPrefixIsRootPath(g, path, k, m - 1);
      ReversePrefixStep(path, m);
      PrependRootPath(RepointedPrefix(g, path, k), path[m], Reverse(path[..m]));
    }
  }

  /** A node of the old walk reaches the root of the re-pointed graph along
      the reversed walk. */
  lemma OnPathReaches(g: seq<Entry>, path: seq<int>, m: nat)
    requires IsRootPath(g, path) && m < |path|
    ensures Reaches(RepointedPrefix(g, path, |path| - 1), path[m])
  {
    ReversedPrefixIsRootPath(g, path, |path| - 1, m);
    ReachesBy(RepointedPrefix(g, path, |path| - 1), Reverse(path[..m + 1]));
    assert Reverse(path[..m + 1])[0] == path[m];
  }

  /** A node off the old walk keeps its parent, and is not a root, since the
      only root is the end of the old walk. */
  lemma OffPathStep(g: seq<Entry>, path: seq<int>, q: seq<int>)
    requires UniqueLeader(g) && IsRootPath(g, path) && IsRootPath(g, q) && Position(path, q[0]).None?
    ensures |q| > 1 && q[0] != q[1] && ParentIn(RepointedPrefix(g, path, |path| - 1), q[0]) == Some(q[1])
    ensures IsRootPath(g, q[1..])
  {
    RepointedParentIn(g, path, |path| - 1, q[0]);
    LeaderIsPathEnd(g, path);
    LeaderIsPathEnd(g, q);
    assert |q| > 1 && StepAt(g, q, 0);
    RootPathTail(g, q, 1);
  }

  /** Every walk of the old graph still reaches the root of the re-pointed
      one: its part off the path is unchanged, and once it meets the path it
      continues down the reversed path. */
  lemma {:induction false} WalkReachesAfterReroot(g: seq<Entry>, path: seq<int>, q: seq<int>)
    requires UniqueLeader(g) && IsRootPath(g, path) && IsRootPath(g, q)
    ensures Reaches(RepointedPrefix(g, path, |path| - 1), q[0])
    decreases |q|
  {
    var h := RepointedPrefix(g, path, |path| - 1);
    match Position(path, q[0])
    case Some(m) =>
      OnPathReaches(g, path, m);
    case None =>
      OffPathStep(g, path, q);
      WalkReachesAfterReroot(g, path, q[1..]);
      var r :| IsRootPath(h, r) && r[0] == q[1];
      PrependRootPath(h, q[0], r);
      ReachesBy(h, [q[0]] + r);
      assert ([q[0]] + r)[0] == q[0];
  }

  /** After re-pointing, at most one node parents itself: only the new
      leader can. */
  lemma RerootedLeaderUnique(g: seq<Entry>, path: seq<int>)
    requires Distinct(Nodes(g)) && UniqueLeader(g) && IsRootPath(g, path)
    ensures UniqueLeader(RepointedPrefix(g, path, |path| - 1))
  {
    var k := |path| - 1;
    var h := RepointedPrefix(g, path, k);
    RootPathDistinct(g, path);
    LeaderIsPathEnd(g, path);
    var r := LeaderIndex(g).value;
    forall t | 0 <= t < |h| && h[t].node == h[t].parent
      ensures g[t].node == path[0]
    {
      assert h[t] == RepointedEntry(g, path, k, t);
      assert Position(path, g[t].node).Some?;
      var m := Position(path, g[t].node).value;
      assert m == 0;
    }
  }

  /** Re-rooting keeps the rooted-tree invariant, and afterwards
      `_find_leader` returns the requested node. */
  lemma RerootPreservesTree(g: seq<Entry>, leader: int)
    requires RootedTree(g) && Has(g, leader)
    ensures RootedTree(RerootedGraph(g, leader))
    ensures LeaderOf(RerootedGraph(g, leader)) == Some(leader)
  {
    TreeReaches(g, leader);
    var path := PathToRoot(g, leader);
    var h := RerootedGraph(g, leader);
    assert h == RepointedPrefix(g, path, |path| - 1);
    RerootedLeaderUnique(g, path);
    forall i | 0 <= i < |h|
      ensures Reaches(h, h[i].node)
    {
      assert h[i].node == Nodes(g)[i] == g[i].node;
      var q := PathToRoot(g, g[i].node);
      WalkReachesAfterReroot(g, path, q);
    }
    ReversedPrefixIsRootPath(g, path, |path| - 1, 0);
    assert Reverse(path[..1]) == [leader];
    LeaderIsPathEnd(h, [leader]);
  }

  /** After re-rooting, the walk from the old leader is the old path
      reversed. */
  lemma OldLeaderPathReversed(g: seq<Entry>, leader: int)
    requires RootedTree(g) && Has(g, leader)
    ensures Reaches(g, leader)
    ensures var path := PathToRoot(g, leader);
            var h := RerootedGraph(g, leader);
            Reaches(h, path[|path| - 1]) && PathToRoot(h, path[|path| - 1]) == Reverse(path)
  {
    TreeReaches(g, leader);
    var path := PathToRoot(g, leader);
    var k := |path| - 1;
    var h := RerootedGraph(g, leader);
    ReversedPrefixIsRootPath(g, path, k, k);
    assert path[..k + 1] == path;
    assert Reverse(path)[0] == path[k];
    RootPathUnique(h, PathToRoot(h, path[k]), Reverse(path));
  }

  /** Re-rooting at the current leader changes nothing. */
  lemma RerootAtLeader<T>(g: seq<Entry>, xs: seq<T>, leader: int, flip: T -> T)
    requires RootedTree(g) && LeaderOf(g) == Some(leader) && |xs| == |g|
    ensures Has(g, leader)
    ensures RerootedGraph(g, leader) == g && RerootedValues(g, xs, leader, flip) == xs
  {
    var r := LeaderIndex(g).value;
    assert Nodes(g)[r] == leader;
    TreeReaches(g, leader);
    var path := PathToRoot(g, leader);
    PositionOfDistinct(Nodes(g), r);
    assert IsRootPath(g, [leader]);
    RootPathUnique(g, path, [leader]);
    var h := RepointedPrefix(g, path, 0);
    forall t | 0 <= t < |g|
      ensures h[t] == g[t]
    {
      if g[t].node == leader {
        assert t == r;
      }
    }
    ShiftedNone(g, xs, path, flip);
  }

  lemma ReverseDistinct(s: seq<int>)
    requires Distinct(s)
    ensures Distinct(Reverse(s))
  {
    var r := Reverse(s);
    forall a, b | 0 <= a < b < |r|
      ensures r[a] != r[b]
    {
      ReverseAt(s, a);
      ReverseAt(s, b);
    }
  }

  lemma AbsentInReverse(s: seq<int>, x: int)
    requires Position(s, x).None?
    ensures Position(Reverse(s), x).None?
  {
    var r := Reverse(s);
    forall i | 0 <= i < |r|
      ensures r[i] != x
    {
      ReverseAt(s, i);
    }
  }

  lemma PresentInReverse(s: seq<int>, m: nat)
    requires Distinct(s) && m < |s|
    ensures Position(Reverse(s), s[m]) == Some(|s| - 1 - m)
  {
    var r := Reverse(s);
    var i := |s| - 1 - m;
    ReverseAt(s, i);
    assert |s| - 1 - i == m;
    assert r[i] == s[m];
    ReverseDistinct(s);
    PositionOfDistinct(r, i);
  }


  /** Entry `t` of a re-pointed graph when its node sits at `p` in `path`. */
  lemma RepointedAt(g: seq<Entry>, path: seq<int>, j: nat, t: nat, p: nat)
    requires t < |g| && Position(path, g[t].node) == Some(p)
    ensures RepointedPrefix(g, path, j)[t] ==
      if p > j then g[t] else if p == 0 then Entry(g[t].node, g[t].node) else Entry(g[t].node, path[p - 1])
  {
    assert RepointedPrefix(g, path, j)[t] == RepointedEntry(g, path, j, t);
  }

  /** Element `t` of a shifted list when its node sits at `1 <= p <= j` in
      `path` and the node before it there holds `v`. */
  lemma ShiftedAt<T>(g: seq<Entry>, xs: seq<T>, path: seq<int>, j: nat, flip: T -> T, t: nat, p: nat, v: T)
    requires |xs| == |g| && t < |g| && Position(path, g[t].node) == Some(p) && 1 <= p <= j
    requires ValueAt(g, xs, path[p - 1]) == Some(v)
    ensures ShiftedPrefix(g, xs, path, j, flip)[t] == flip(v)
  {
    assert ShiftedPrefix(g, xs, path, j, flip)[t] == ShiftedValue(g, xs, path, j, flip, t);
  }

  lemma SameNodesValueAt<T>(g: seq<Entry>, h: seq<Entry>, xs: seq<T>, x: int)
    requires Nodes(h) == Nodes(g) && |xs| == |g|
    ensures ValueAt(h, xs, x) == ValueAt(g, xs, x)
  {
    assert IndexOf(h, x) == IndexOf(g, x);
  }

  /** The entry of the walk's node `path[m]`, read in `g`. */
  lemma EntryOnPath(g: seq<Entry>, path: seq<int>, t: nat, m: nat)
    requires Distinct(Nodes(g)) && IsRootPath(g, path) && t < |g| && m < |path| && g[t].node == path[m]
    ensures IndexOf(g, path[m]) == Some(t)
    ensures g[t].parent == if m + 1 < |path| then path[m + 1] else path[m]
  {
    PositionOfDistinct(Nodes(g), t);
    if m + 1 < |path| {
      assert StepAt(g, path, m);
    }
  }

  /** Where the walk's node `path[m]` and its successor sit in the reversed
      walk. */
  lemma ReversedWalkAt(g: seq<Entry>, path: seq<int>, k: nat, m: nat)
    requires IsRootPath(g, path) && k == |path| - 1 && m <= k
    ensures Position(Reverse(path), path[m]) == Some(k - m)
    ensures m < k ==> Reverse(path)[k - m - 1] == path[m + 1]
  {
    RootPathDistinct(g, path);
    PresentInReverse(path, m);
    if m < k {
      ReverseAt(path, k - m - 1);
    }
  }

  /** Re-pointing along the reversed path restores the entry of a node of
      the walk. */
  lemma RepointBackOnPath(g: seq<Entry>, path: seq<int>, k: nat, t: nat, m: nat)
    requires Distinct(Nodes(g)) && IsRootPath(g, path) && k == |path| - 1 && t < |g| && m <= k && g[t].node == path[m]
    ensures RepointedPrefix(RepointedPrefix(g, path, k), Reverse(path), k)[t] == g[t]
  {
    var h := RepointedPrefix(g, path, k);
    var n := g[t].node;
    ReversedWalkAt(g, path, k, m);
    assert h[t].node == Nodes(h)[t] == n;
    RepointedAt(h, Reverse(path), k, t, k - m);
    EntryOnPath(g, path, t, m);
    if m < k {
      assert Reverse(path)[k - m - 1] == path[m + 1];
    }
  }

  /** Re-pointing along the reversed path restores entry `t`. */
  lemma RepointBackAt(g: seq<Entry>, path: seq<int>, k: nat, t: nat)
    requires Distinct(Nodes(g)) && IsRootPath(g, path) && k == |path| - 1 && t < |g|
    ensures RepointedPrefix(RepointedPrefix(g, path, k), Reverse(path), k)[t] == g[t]
  {
    var h := RepointedPrefix(g, path, k);
    var n := g[t].node;
    match Position(path, n)
    case Some(m) => RepointBackOnPath(g, path, k, t, m);
    case None =>
      AbsentInReverse(path, n);
      assert h[t] == RepointedEntry(g, path, k, t);
      assert h[t].node == n;
      assert RepointedPrefix(h, Reverse(path), k)[t] == RepointedEntry(h, Reverse(path), k, t);
  }

  /** Shifting back along the reversed path leaves an element off the path
      as it was. */
  lemma ShiftBackOffPath<T>(g: seq<Entry>, xs: seq<T>, path: seq<int>, k: nat, flip: T -> T, t: nat)
    requires Distinct(Nodes(g)) && IsRootPath(g, path) && k == |path| - 1 && |xs| == |g| && t < |g|
    requires Position(path, g[t].node).None?
    ensures ShiftedPrefix(RepointedPrefix(g, path, k), ShiftedPrefix(g, xs, path, k, flip), Reverse(path), k, flip)[t] == xs[t]
  {
    var h := RepointedPrefix(g, path, k);
    var ys := ShiftedPrefix(g, xs, path, k, flip);
    var n := g[t].node;
    AbsentInReverse(path, n);
    assert h[t].node == Nodes(h)[t] == n;
    assert ys[t] == xs[t];
  }

  /** After the shift, the successor of `path[m]` on the walk holds the
      flip of the element of entry `t`, the entry of `path[m]`. */
  lemma ShiftedSuccessor<T>(g: seq<Entry>, xs: seq<T>, path: seq<int>, k: nat, flip: T -> T, t: nat, m: nat)
    requires Distinct(Nodes(g)) && IsRootPath(g, path) && |xs| == |g| && t < |g|
    requires k == |path| - 1 && m < k && g[t].node == path[m]
    ensures ValueAt(g, ShiftedPrefix(g, xs, path, k, flip), path[m + 1]) == Some(flip(xs[t]))
  {
    EntryOnPath(g, path, t, m);
    NextValueAfterShift(g, xs, path, k, flip, m);
    assert ValueAt(g, xs, path[m]) == Some(xs[t]);
  }

  /** Shifting back along the reversed path gives `path[m]` (m < k) the
      flip of the value `path[m + 1]` received, which is the flip of the
      flip of its own original value. */
  lemma ShiftBackOnPath<T>(g: seq<Entry>, xs: seq<T>, path: seq<int>, k: nat, flip: T -> T, t: nat, m: nat)
    requires Distinct(Nodes(g)) && IsRootPath(g, path) && k == |path| - 1 && |xs| == |g| && t < |g|
    requires m < k && g[t].node == path[m]
    ensures ShiftedPrefix(RepointedPrefix(g, path, k), ShiftedPrefix(g, xs, path, k, flip), Reverse(path), k, flip)[t]
            == flip(flip(xs[t]))
  {
    ShiftedSuccessor(g, xs, path, k, flip, t, m);
    ReversedWalkAt(g, path, k, m);
    ShiftBackFinish(g, ShiftedPrefix(g, xs, path, k, flip), path, Reverse(path), k, flip, t, k - m, flip(xs[t]));
  }

  /** The last step of shifting back: entry `t` sits at `1 <= p <= k` on the
      reversed walk `rp`, and the node before it there holds `v`. */
  lemma ShiftBackFinish<T>(g: seq<Entry>, ys: seq<T>, path: seq<int>, rp: seq<int>, k: nat, flip: T -> T, t: nat, p: nat, v: T)
    requires |ys| == |g| && t < |g| && Position(rp, g[t].node) == Some(p) && 1 <= p <= k
    requires ValueAt(g, ys, rp[p - 1]) == Some(v)
    ensures ShiftedPrefix(RepointedPrefix(g, path, k), ys, rp, k, flip)[t] == flip(v)
  {
    var h := RepointedPrefix(g, path, k);
    assert h[t].node == Nodes(h)[t] == g[t].node;
    SameNodesValueAt(g, h, ys, rp[p - 1]);
    ShiftedAt(h, ys, rp, k, flip, t, p, v);
  }

  /** After the shift, `path[m + 1]` holds the flip of `path[m]`'s value. */
  lemma NextValueAfterShift<T>(g: seq<Entry>, xs: seq<T>, path: seq<int>, k: nat, flip: T -> T, m: nat)
    requires Distinct(Nodes(g)) && IsRootPath(g, path) && |xs| == |g| && k == |path| - 1 && m < k
    ensures Has(g, path[m])
    ensures ValueAt(g, ShiftedPrefix(g, xs, path, k, flip), path[m + 1]) == Some(flip(ValueAt(g, xs, path[m]).value))
  {
    RootPathDistinct(g, path);
    RootPathNodesPresent(g, path, m);
    RootPathNodesPresent(g, path, m + 1);
    PositionOfDistinct(path, m + 1);
    ShiftedValueIn(g, xs, path, k, flip, path[m + 1]);
  }

  lemma BeforeLast(path: seq<int>, k: nat, m: nat)
    requires k == |path| - 1 && m <= k && path[m] != path[k]
    ensures m < k
  {
  }

  /** Re-pointing along the reversed walk restores every entry. */
  lemma RepointBack(g: seq<Entry>, path: seq<int>, k: nat)
    requires Distinct(Nodes(g)) && IsRootPath(g, path) && k == |path| - 1
    ensures RepointedPrefix(RepointedPrefix(g, path, k), Reverse(path), k) == g
  {
    var h2 := RepointedPrefix(RepointedPrefix(g, path, k), Reverse(path), k);
    forall t | 0 <= t < |g|
      ensures h2[t] == g[t]
    {
      RepointBackAt(g, path, k, t);
    }
  }

  /** Shifting back along the reversed walk restores the element of every
      entry except that of the walk's last node. */
  lemma ShiftBack<T>(g: seq<Entry>, xs: seq<T>, path: seq<int>, k: nat, flip: T -> T)
    requires Distinct(Nodes(g)) && IsRootPath(g, path) && k == |path| - 1 && |xs| == |g|
    requires forall v :: flip(flip(v)) == v
    ensures forall t :: 0 <= t < |g| && g[t].node != path[k] ==>
      ShiftedPrefix(RepointedPrefix(g, path, k), ShiftedPrefix(g, xs, path, k, flip), Reverse(path), k, flip)[t] == xs[t]
  {
    forall t | 0 <= t < |g| && g[t].node != path[k]
      ensures ShiftedPrefix(RepointedPrefix(g, path, k), ShiftedPrefix(g, xs, path, k, flip), Reverse(path), k, flip)[t] == xs[t]
    {
      match Position(path, g[t].node)
      case None => ShiftBackOffPath(g, xs, path, k, flip, t);
      case Some(m) =>
        BeforeLast(path, k, m);
        ShiftBackOnPath(g, xs, path, k, flip, t, m);
    }
  }

  /** Re-rooting at `leader` and then back at the old leader `root` restores
      every parent exactly, and restores every rod and flap except the old
      leader's own, which keeps the value the first re-rooting gave it (the
      flipped value of its former child). */
  lemma RerootRoundTrip<T>(g: seq<Entry>, xs: seq<T>, leader: int, root: int, flip: T -> T)
    requires RootedTree(g) && Has(g, leader) && |xs| == |g| && LeaderOf(g) == Some(root)
    requires forall v :: flip(flip(v)) == v
    ensures var h := RerootedGraph(g, leader);
            var ys := RerootedValues(g, xs, leader, flip);
            RootedTree(h) && Has(h, root) && |ys| == |h| &&
            RerootedGraph(h, root) == g &&
            (forall t :: 0 <= t < |g| && g[t].node != root ==> RerootedValues(h, ys, root, flip)[t] == xs[t]) &&
            ValueAt(g, RerootedValues(h, ys, root, flip), root) == ValueAt(g, ys, root)
  {
    TreeReaches(g, leader);
    var path := PathToRoot(g, leader);
    var k := |path| - 1;
    var h := RerootedGraph(g, leader);
    var ys := RerootedValues(g, xs, leader, flip);
    LeaderIsPathEnd(g, path);
    assert path[k] == root;
    RootPathNodesPresent(g, path, k);
    RerootPreservesTree(g, leader);
    OldLeaderPathReversed(g, leader);
    assert Nodes(h) == Nodes(g);
    assert Has(h, root);
    TreeReaches(h, root);
    assert RerootedGraph(h, root) == RepointedPrefix(h, Reverse(path), k);
    assert RerootedValues(h, ys, root, flip) == ShiftedPrefix(h, ys, Reverse(path), k, flip);
    RepointBack(g, path, k);
    ShiftBack(g, xs, path, k, flip);
    RerootedShift(h, ys, root, flip);
  }
}
