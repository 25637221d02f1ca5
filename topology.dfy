/** The swarm's parent-pointer graph: first-match lookups over the `graph`
    list and the parallel `rods` / `flap_params` lists, the setters that
    rewrite one matching entry, and the rooted-tree invariant together with
    the walk from a node up to the leader. */
module Topology {

  datatype Option<T> = None | Some(value: T)

  /** One `[node, parent]` pair of the graph list. The leader is the node
      whose parent is itself. */
  datatype Entry = Entry(node: int, parent: int)

  /** The rigid offset from a node to its parent. */
  datatype Rod = Rod(x: int, y: int, z: int)

  /** Oscillation parameters applied relative to the parent. */
  datatype Flap = Flap(freq: real, amp: real, phase: real)

  /** Every component of the rod changes sign. */
  function Negated(r: Rod): Rod {
    Rod(-r.x, -r.y, -r.z)
  }

  /** Only the amplitude changes sign; frequency and phase are kept. */
  function AmpFlipped(f: Flap): Flap {
    Flap(f.freq, -f.amp, f.phase)
  }

  lemma NegatedInvolution(r: Rod)
    ensures Negated(Negated(r)) == r
  {
  }

  lemma AmpFlippedInvolution(f: Flap)
    ensures AmpFlipped(AmpFlipped(f)) == f
    ensures AmpFlipped(f).freq == f.freq && AmpFlipped(f).phase == f.phase
  {
  }

  /** The index of the first occurrence of `x` in `s` at or after `i`. */
  function PositionFrom(s: seq<int>, x: int, i: nat): (r: Option<nat>)
    requires i <= |s|
    ensures r.Some? ==> i <= r.value < |s| && s[r.value] == x
    ensures r.Some? ==> forall j :: i <= j < r.value ==> s[j] != x
    ensures r.None? <==> forall j :: i <= j < |s| ==> s[j] != x
    decreases |s| - i
  {
    if i == |s| then None
    else if s[i] == x then Some(i)
    else PositionFrom(s, x, i + 1)
  }

  /** The index of the first occurrence of `x` in `s`. */
  function Position(s: seq<int>, x: int): (r: Option<nat>)
    ensures r.Some? ==> r.value < |s| && s[r.value] == x
    ensures r.Some? ==> forall j :: 0 <= j < r.value ==> s[j] != x
    ensures r.None? <==> forall j :: 0 <= j < |s| ==> s[j] != x
  {
    PositionFrom(s, x, 0)
  }

  predicate Distinct(s: seq<int>) {
    forall a, b :: 0 <= a < b < |s| ==> s[a] != s[b]
  }

  lemma PositionOfDistinct(s: seq<int>, m: nat)
    requires Distinct(s) && m < |s|
    ensures Position(s, s[m]) == Some(m)
  {
  }

  /** The node column of the graph, which no operation ever changes. */
  function Nodes(g: seq<Entry>): (ns: seq<int>)
    ensures |ns| == |g|
    ensures forall i :: 0 <= i < |g| ==> ns[i] == g[i].node
  {
    seq(|g|, i requires 0 <= i < |g| => g[i].node)
  }

  /** The index every helper of the source acts on: the first entry whose
      node is `n`. */
  function IndexOf(g: seq<Entry>, n: int): Option<nat> {
    Position(Nodes(g), n)
  }

  predicate Has(g: seq<Entry>, n: int) {
    IndexOf(g, n).Some?
  }

  /** `_get_parent`: the parent of the first entry for `n`, or None. */
  function ParentIn(g: seq<Entry>, n: int): Option<int> {
    match IndexOf(g, n)
    case None => None
    case Some(i) => Some(g[i].parent)
  }

  /** `_get_rod` / `_get_flap_params`: the element of a parallel list at the
      index of the first entry for `n`, or None. */
  function ValueAt<T>(g: seq<Entry>, xs: seq<T>, n: int): Option<T>
    requires |xs| == |g|
  {
    match IndexOf(g, n)
    case None => None
    case Some(i) => Some(xs[i])
  }

  /** `_set_parent`: rewrites the parent of the first entry for `n` only. */
  function WithParent(g: seq<Entry>, n: int, p: int): (h: seq<Entry>)
    ensures |h| == |g| && Nodes(h) == Nodes(g)
  {
    match IndexOf(g, n)
    case None => g
    case Some(i) => g[i := Entry(g[i].node, p)]
  }

  /** `_set_and_flip_rod` / `_set_and_flip_flap_params` store `x` (already
      transformed) at the index of the first entry for `n` only. */
  function PutAt<T>(g: seq<Entry>, xs: seq<T>, n: int, x: T): (ys: seq<T>)
    requires |xs| == |g|
    ensures |ys| == |xs|
  {
    match IndexOf(g, n)
    case None => xs
    case Some(i) => xs[i := x]
  }

  /** A getter right after `_set_parent` sees the new parent; every other
      node keeps its parent, and an absent node changes nothing. */
  lemma ParentAfterWithParent(g: seq<Entry>, n: int, p: int, m: int)
    ensures ParentIn(WithParent(g, n, p), m) == if m == n && Has(g, n) then Some(p) else ParentIn(g, m)
  {
    var h := WithParent(g, n, p);
    assert IndexOf(h, m) == IndexOf(g, m);
  }

  /** A getter right after a value setter sees the stored value; every other
      node keeps its value. */
  lemma ValueAfterPutAt<T>(g: seq<Entry>, xs: seq<T>, n: int, x: T, m: int)
    requires |xs| == |g|
    ensures ValueAt(g, PutAt(g, xs, n, x), m) == if m == n && Has(g, n) then Some(x) else ValueAt(g, xs, m)
  {
  }

  /** The first self-parenting entry at or after `i`. */
  function LeaderFrom(g: seq<Entry>, i: nat): (r: Option<nat>)
    requires i <= |g|
    ensures r.Some? ==> i <= r.value < |g| && g[r.value].node == g[r.value].parent
    ensures r.Some? ==> forall j :: i <= j < r.value ==> g[j].node != g[j].parent
    ensures r.None? <==> forall j :: i <= j < |g| ==> g[j].node != g[j].parent
    decreases |g| - i
  {
    if i == |g| then None
    else if g[i].node == g[i].parent then Some(i)
    else LeaderFrom(g, i + 1)
  }

  /** `_find_leader` scans for the first self-parenting entry. */
  function LeaderIndex(g: seq<Entry>): (r: Option<nat>)
    ensures r.Some? ==> r.value < |g| && g[r.value].node == g[r.value].parent
    ensures r.Some? ==> forall j :: 0 <= j < r.value ==> g[j].node != g[j].parent
    ensures r.None? <==> forall j :: 0 <= j < |g| ==> g[j].node != g[j].parent
  {
    LeaderFrom(g, 0)
  }

  function LeaderOf(g: seq<Entry>): Option<int> {
    match LeaderIndex(g)
    case None => None
    case Some(i) => Some(g[i].node)
  }

  /** At most one entry parents itself. */
  predicate UniqueLeader(g: seq<Entry>) {
    forall i, j :: 0 <= i < |g| && 0 <= j < |g| && g[i].node == g[i].parent && g[j].node == g[j].parent ==> i == j
  }

  /** Step `m` of a walk: `path[m + 1]` is the parent of `path[m]`, and the
      two differ. */
  predicate StepAt(g: seq<Entry>, path: seq<int>, m: int) {
    0 <= m < |path| - 1 && path[m] != path[m + 1] && ParentIn(g, path[m]) == Some(path[m + 1])
  }

  /** `path` is the walk that follows parent pointers from `path[0]` and
      stops at the first self-parenting node. */
  predicate IsRootPath(g: seq<Entry>, path: seq<int>) {
    |path| > 0 &&
    (forall m :: 0 <= m < |path| - 1 ==> StepAt(g, path, m)) &&
    ParentIn(g, path[|path| - 1]) == Some(path[|path| - 1])
  }

  ghost predicate Reaches(g: seq<Entry>, n: int) {
    exists path :: IsRootPath(g, path) && path[0] == n
  }

  /** A walk witnesses that its first node reaches a root. */
  lemma ReachesBy(g: seq<Entry>, path: seq<int>)
    requires IsRootPath(g, path)
    ensures Reaches(g, path[0])
  {
  }

  /** The rooted-tree invariant: node ids are distinct, one node at most
      parents itself, and the walk from every node ends at a self-parenting
      node (so there is no cycle other than the leader's self-loop). */
  ghost predicate RootedTree(g: seq<Entry>) {
    Distinct(Nodes(g)) && UniqueLeader(g) &&
    forall i :: 0 <= i < |g| ==> Reaches(g, g[i].node)
  }

  lemma TreeReaches(g: seq<Entry>, n: int)
    requires RootedTree(g) && Has(g, n)
    ensures Reaches(g, n)
  {
    var t := IndexOf(g, n).value;
    assert g[t].node == n;
  }

  /** The path from `n` to the leader, `n` first. */
  ghost function PathToRoot(g: seq<Entry>, n: int): (path: seq<int>)
    requires Reaches(g, n)
    ensures IsRootPath(g, path) && path[0] == n
  {
    var p :| IsRootPath(g, p) && p[0] == n; p
  }

  lemma RootPathNodesPresent(g: seq<Entry>, p: seq<int>, m: nat)
    requires IsRootPath(g, p) && m < |p|
    ensures Has(g, p[m])
  {
    if m < |p| - 1 {
      assert StepAt(g, p, m);
    }
  }

  lemma RootPathTail(g: seq<Entry>, p: seq<int>, m: nat)
    requires IsRootPath(g, p) && m < |p|
    ensures IsRootPath(g, p[m..])
  {
    var q := p[m..];
    forall k | 0 <= k < |q| - 1
      ensures StepAt(g, q, k)
    {
      assert StepAt(g, p, m + k);
      assert q[k] == p[m + k] && q[k + 1] == p[m + k + 1];
    }
  }

  /** Parent pointers are a function, so two walks from the same node agree. */
  lemma {:induction false} RootPathUnique(g: seq<Entry>, p: seq<int>, q: seq<int>)
    requires IsRootPath(g, p) && IsRootPath(g, q) && p[0] == q[0]
    ensures p == q
    decreases |p|
  {
    // a walk longer than one node starts at a node that is not its own parent
    assert |p| > 1 ==> StepAt(g, p, 0);
    assert |q| > 1 ==> StepAt(g, q, 0);
    assert |p| > 1 <==> ParentIn(g, p[0]) != Some(p[0]);
    assert |q| > 1 <==> ParentIn(g, q[0]) != Some(q[0]);
    if |p| > 1 {
      RootPathTail(g, p, 1);
      RootPathTail(g, q, 1);
      RootPathUnique(g, p[1..], q[1..]);
      assert p == [p[0]] + p[1..] && q == [q[0]] + q[1..];
    }
  }

  /** A walk to the root visits no node twice. */
  lemma RootPathDistinct(g: seq<Entry>, p: seq<int>)
    requires IsRootPath(g, p)
    ensures Distinct(p)
  {
    forall a, b | 0 <= a < b < |p|
      ensures p[a] != p[b]
    {
      if p[a] == p[b] {
        RootPathTail(g, p, a);
        RootPathTail(g, p, b);
        RootPathUnique(g, p[a..], p[b..]);
        assert false;
      }
    }
  }

  /** `_find_leader` returns the node at the end of every walk. */
  lemma LeaderIsPathEnd(g: seq<Entry>, p: seq<int>)
    requires UniqueLeader(g) && IsRootPath(g, p)
    ensures LeaderOf(g) == Some(p[|p| - 1])
  {
    var r := p[|p| - 1];
    var t := IndexOf(g, r).value;
    assert g[t].node == r && g[t].parent == r;
    var s := LeaderIndex(g).value;
    assert s == t;
  }

  lemma PrependRootPath(g: seq<Entry>, x: int, q: seq<int>)
    requires IsRootPath(g, q) && x != q[0] && ParentIn(g, x) == Some(q[0])
    ensures IsRootPath(g, [x] + q)
  {
    var p := [x] + q;
    forall k | 0 <= k < |p| - 1
      ensures StepAt(g, p, k)
    {
      if k > 0 {
        assert StepAt(g, q, k - 1);
        assert p[k] == q[k - 1] && p[k + 1] == q[k];
      }
    }
  }
}
