/** Commit: collecting the changed internal nodes level by level and patching their commitments. */
module Commits {
  import opened Pedersen
  import opened VerkleTypes
  import opened LeafNodes
  import opened InternalNodes
  import Trie

  ghost function Elems(ns: seq<InternalNode>): set<InternalNode> {
    set m | m in ns
  }

  predicate Distinct(ns: seq<InternalNode>) {
    forall j, k :: 0 <= j < k < |ns| ==> ns[j] != ns[k]
  }

  /** What patching one node relies on: its commitment is the one of its basis, and where there
      is a record the basis has the scalar of the recorded commitment. */
  ghost predicate Patchable(m: InternalNode)
    reads m
  {
    && |m.children| == NODE_WIDTH && |m.basis| == NODE_WIDTH && m.commitment == Commit(m.basis)
    && forall i :: i in m.cow ==> i < NODE_WIDTH && m.basis[i] == MapToScalarField(m.cow[i])
  }

  /** The change of scalar `i` of node `m`. */
  ghost function Delta(m: InternalNode, i: nat): Scalar
    requires i < |m.children| && i in m.cow
    reads m
    reads if m.children[i].InternalChild? then {m.children[i].node} else {}
    reads if m.children[i].LeafChild? then {m.children[i].leaf} else {}
  {
    MapToScalarField(ChildCommitment(m.children[i])) - MapToScalarField(m.cow[i])
  }

  /** The entries lo..hi of the gathered points are the records of `m`, in whatever order they
      were met: old commitment and current commitment, side by side. */
  ghost predicate Share(m: InternalNode, points: seq<Point>, cowIndexes: seq<nat>, lo: nat, hi: nat)
    requires Patchable(m)
    reads *
  {
    && lo <= hi <= |cowIndexes| && |points| == 2 * |cowIndexes|
    && (forall t :: lo <= t < hi ==> cowIndexes[t] in m.cow)
    && (forall t :: lo <= t < hi ==>
          points[2 * t] == m.cow[cowIndexes[t]] && points[2 * t + 1] == ChildCommitment(m.children[cowIndexes[t]]))
    && (forall i :: i in m.cow ==> exists t :: lo <= t < hi && cowIndexes[t] == i)
  }

  /** The first loop of commitNodesAtLevel, for one node. */
  method GatherNode(m: InternalNode, points: seq<Point>, cowIndexes: seq<nat>)
    returns (points': seq<Point>, cowIndexes': seq<nat>)
    requires Patchable(m) && |points| == 2 * |cowIndexes|
    ensures points <= points' && cowIndexes <= cowIndexes' && |points'| == 2 * |cowIndexes'|
    ensures |cowIndexes'| == |cowIndexes| + |m.cow|
    ensures Share(m, points', cowIndexes', |cowIndexes|, |cowIndexes'|)
  {
    hide Commit;
    points', cowIndexes' := points, cowIndexes;
    var todo := m.cow.Keys;
    while todo != {}
      invariant todo <= m.cow.Keys
      invariant points <= points' && cowIndexes <= cowIndexes' && |points'| == 2 * |cowIndexes'|
      invariant |cowIndexes'| == |cowIndexes| + |m.cow.Keys| - |todo|
      invariant forall t :: |cowIndexes| <= t < |cowIndexes'| ==> cowIndexes'[t] in m.cow
      invariant forall t :: |cowIndexes| <= t < |cowIndexes'| ==>
        points'[2 * t] == m.cow[cowIndexes'[t]] && points'[2 * t + 1] == ChildCommitment(m.children[cowIndexes'[t]])
      invariant forall i :: i in m.cow && i !in todo ==> exists t :: |cowIndexes| <= t < |cowIndexes'| && cowIndexes'[t] == i
    {
      var idx :| idx in todo;
      todo := todo - {idx};
      ghost var before := cowIndexes';
      points' := points' + [m.cow[idx]] + [ChildCommitment(m.children[idx])];
      cowIndexes' := cowIndexes' + [idx];
      forall i | i in m.cow && i !in todo
        ensures exists t :: |cowIndexes| <= t < |cowIndexes'| && cowIndexes'[t] == i
      {
        if i == idx {
          assert cowIndexes'[|before|] == i;
        } else {
          var t :| |cowIndexes| <= t < |before| && before[t] == i;
          assert cowIndexes'[t] == i;
        }
      }
    }
  }

  /** After the differences are taken: the entries lo..hi are the scalar changes of node `m`. */
  ghost predicate DeltaShare(m: InternalNode, frs: seq<Scalar>, cowIndexes: seq<nat>, lo: nat, hi: nat)
    requires Patchable(m)
    reads *
  {
    && lo <= hi <= |cowIndexes| && |frs| == |cowIndexes| && hi - lo == |m.cow|
    && (forall t :: lo <= t < hi ==> cowIndexes[t] in m.cow && frs[t] == Delta(m, cowIndexes[t]))
    && (forall i :: i in m.cow ==> exists t :: lo <= t < hi && cowIndexes[t] == i)
  }

  /** Where the share of each node begins. */
  ghost predicate Offsets(ns: seq<InternalNode>, n: nat, off: seq<nat>, total: nat)
    reads *
  {
    n <= |ns| && |off| == n + 1 && off[0] == 0 && off[n] == total
    && forall k :: 0 <= k < n ==> off[k + 1] == off[k] + |ns[k].cow|
  }

  /** The gathering loop over all nodes, then one scalar per point. */
  method GatherPoints(ns: seq<InternalNode>)
    returns (frs: seq<Scalar>, cowIndexes: seq<nat>, ghost points: seq<Point>, ghost off: seq<nat>)
    requires forall k :: 0 <= k < |ns| ==> Patchable(ns[k])
    ensures Offsets(ns, |ns|, off, |cowIndexes|) && |frs| == |points| == 2 * |cowIndexes|
    ensures forall i :: 0 <= i < |points| ==> frs[i] == MapToScalarField(points[i])
    ensures forall k :: 0 <= k < |ns| ==> Share(ns[k], points, cowIndexes, off[k], off[k + 1])
  {
    hide Commit, Patchable;
    var pts: seq<Point>;
    pts, cowIndexes, off := [], [], [0];
    var n := 0;
    while n < |ns|
      invariant 0 <= n <= |ns|
      invariant Offsets(ns, n, off, |cowIndexes|) && |pts| == 2 * |cowIndexes|
      invariant forall k :: 0 <= k < n ==> Share(ns[k], pts, cowIndexes, off[k], off[k + 1])
    {
      ghost var pts0, idx0, off0 := pts, cowIndexes, off;
      pts, cowIndexes := GatherNode(ns[n], pts, cowIndexes);
      off := off + [|cowIndexes|];
      forall k | 0 <= k < n + 1 ensures Share(ns[k], pts, cowIndexes, off[k], off[k + 1]) {
        if k < n {
          ShareGrows(ns[k], pts0, idx0, pts, cowIndexes, off0[k], off0[k + 1]);
        }
      }
      n := n + 1;
    }
    points := pts;
    frs := seq(|pts|, i requires 0 <= i < |pts| => MapToScalarField(pts[i]));
  }

  lemma ShareGrows(m: InternalNode, p0: seq<Point>, c0: seq<nat>, p1: seq<Point>, c1: seq<nat>, lo: nat, hi: nat)
    requires Patchable(m) && Share(m, p0, c0, lo, hi) && p0 <= p1 && c0 <= c1 && |p1| == 2 * |c1|
    ensures Share(m, p1, c1, lo, hi)
  {
    hide Commit;
    forall i | i in m.cow ensures exists t :: lo <= t < hi && c1[t] == i {
      var t :| lo <= t < hi && c0[t] == i;
      assert c1[t] == i;
    }
  }

  /** The differences are written over the front half of the same slice. */
  method SubtractPairs(frs: seq<Scalar>) returns (diffs: seq<Scalar>)
    requires |frs| % 2 == 0
    ensures |diffs| == |frs| / 2
    ensures forall t :: 0 <= t < |diffs| ==> diffs[t] == frs[2 * t + 1] - frs[2 * t]
  {
    var a := new Scalar[|frs|](i requires 0 <= i < |frs| => frs[i]);
    var i := 0;
    while i < |frs|
      invariant 0 <= i <= |frs| && i % 2 == 0
      invariant forall t :: 0 <= t < i / 2 ==> a[t] == frs[2 * t + 1] - frs[2 * t]
      invariant forall j :: i <= j < |frs| ==> a[j] == frs[j]
    {
      a[i / 2] := a[i + 1] - a[i];
      i := i + 2;
    }
    diffs := a[..|frs| / 2];
  }

  /** The last loop of commitNodesAtLevel, for one node. */
  method PatchNode(m: InternalNode, frs: seq<Scalar>, cowIndexes: seq<nat>, from: nat) returns (next: nat)
    requires Patchable(m) && from + |m.cow| <= |cowIndexes| && DeltaShare(m, frs, cowIndexes, from, from + |m.cow|)
    modifies m`commitment, m`cow, m`basis
    ensures next == from + |old(m.cow)|
    ensures m.cow == map[] && |m.basis| == NODE_WIDTH && m.commitment == Commit(m.basis)
    ensures forall i :: 0 <= i < NODE_WIDTH ==>
      m.basis[i] == if i in old(m.cow) then old(m.basis[i] + Delta(m, i)) else old(m.basis)[i]
  {
    hide Commit;
    var poly: Poly := seq(NODE_WIDTH, _ => 0);
    var i := 0;
    next := from;
    while i < |m.cow|
      invariant 0 <= i <= |m.cow| && next == from + i && |poly| == NODE_WIDTH
      invariant forall t :: from <= t < next ==> poly[cowIndexes[t]] == Delta(m, cowIndexes[t])
      invariant forall j :: 0 <= j < NODE_WIDTH && j !in m.cow ==> poly[j] == 0
    {
      poly := poly[cowIndexes[next] := frs[next]];
      next := next + 1;
      i := i + 1;
    }
    forall j | j in m.cow ensures poly[j] == Delta(m, j) {
      var t :| from <= t < next && cowIndexes[t] == j;
    }
    ghost var basis' := Sum(m.basis, poly);
    CommitIsLinear(m.basis, poly, basis');
    m.cow := map[];
    m.commitment := m.commitment + Commit(poly);
    m.basis := basis';
  }

  /** What commitNodesAtLevel does to one node. */
  twostate predicate Patched(m: InternalNode)
    reads *
  {
    && m.children == old(m.children) && |m.children| == NODE_WIDTH && |old(m.basis)| == NODE_WIDTH
    && m.cow == map[] && |m.basis| == NODE_WIDTH && m.commitment == Commit(m.basis)
    && forall i :: 0 <= i < NODE_WIDTH ==>
         m.basis[i] == if i in old(m.cow) then MapToScalarField(old(ChildCommitment(m.children[i]))) else old(m.basis)[i]
  }

  ghost predicate NoChildIn(m: InternalNode, ns: seq<InternalNode>)
    reads m
  {
    |m.children| == NODE_WIDTH
    && forall i :: 0 <= i < NODE_WIDTH && m.children[i].InternalChild? ==> m.children[i].node !in ns
  }

  lemma GatheredDeltas(m: InternalNode, points: seq<Point>, scalars: seq<Scalar>, frs: seq<Scalar>, cowIndexes: seq<nat>, lo: nat, hi: nat)
    requires Patchable(m) && Share(m, points, cowIndexes, lo, hi) && hi - lo == |m.cow|
    requires |scalars| == |points| && |frs| == |cowIndexes|
    requires forall i :: 0 <= i < |points| ==> scalars[i] == MapToScalarField(points[i])
    requires forall t :: 0 <= t < |frs| ==> frs[t] == scalars[2 * t + 1] - scalars[2 * t]
    ensures DeltaShare(m, frs, cowIndexes, lo, hi)
  {
    hide Commit;
  }

  /** Node `m` and the commitments of its children are as they were. */
  twostate predicate Unaffected(m: InternalNode)
    reads *
  {
    && unchanged(m) && |m.children| == NODE_WIDTH
    && forall i :: 0 <= i < NODE_WIDTH ==> ChildCommitment(m.children[i]) == old(ChildCommitment(m.children[i]))
  }

  twostate lemma DeltasKept(m: InternalNode, new frs: seq<Scalar>, new cowIndexes: seq<nat>, new lo: nat, new hi: nat)
    requires old(Patchable(m)) && old(DeltaShare(m, frs, cowIndexes, lo, hi)) && Unaffected(m)
    ensures Patchable(m) && DeltaShare(m, frs, cowIndexes, lo, hi)
  {
    hide Commit;
    forall i | i in m.cow ensures i < NODE_WIDTH && Delta(m, i) == old(Delta(m, i)) {
    }
  }

  twostate lemma StillUnaffected(m: InternalNode, new ns: seq<InternalNode>)
    requires m in ns && NoChildIn(m, ns) && unchanged(m)
    requires forall i :: 0 <= i < NODE_WIDTH && m.children[i].InternalChild? && m.children[i].node !in ns ==>
               unchanged(m.children[i].node)
    requires forall i :: 0 <= i < NODE_WIDTH && m.children[i].LeafChild? ==> unchanged(m.children[i].leaf)
    ensures Unaffected(m)
  {
    forall i | 0 <= i < NODE_WIDTH
      ensures ChildCommitment(m.children[i]) == old(ChildCommitment(m.children[i]))
    {
    }
  }

  twostate lemma ReadyToPatch(m: InternalNode, new ns: seq<InternalNode>, new frs: seq<Scalar>, new cowIndexes: seq<nat>, new lo: nat, new hi: nat)
    requires m in ns && NoChildIn(m, ns) && unchanged(m) && old(Patchable(m)) && old(DeltaShare(m, frs, cowIndexes, lo, hi))
    requires forall i :: 0 <= i < NODE_WIDTH && m.children[i].InternalChild? && m.children[i].node !in ns ==>
               unchanged(m.children[i].node)
    requires forall i :: 0 <= i < NODE_WIDTH && m.children[i].LeafChild? ==> unchanged(m.children[i].leaf)
    ensures Patchable(m) && DeltaShare(m, frs, cowIndexes, lo, hi) && Unaffected(m)
  {
    StillUnaffected(m, ns);
    DeltasKept(m, frs, cowIndexes, lo, hi);
  }

  /** One loop of the gathering and one subtraction give the scalar changes of every node. */
  method ComputeDeltas(ns: seq<InternalNode>) returns (frs: seq<Scalar>, cowIndexes: seq<nat>, ghost off: seq<nat>)
    requires forall k :: 0 <= k < |ns| ==> Patchable(ns[k])
    ensures Offsets(ns, |ns|, off, |cowIndexes|)
    ensures forall k :: 0 <= k < |ns| ==> DeltaShare(ns[k], frs, cowIndexes, off[k], off[k + 1])
  {
    hide Patchable, DeltaShare;
    var scalars;
    ghost var points;
    scalars, cowIndexes, points, off := GatherPoints(ns);
    frs := SubtractPairs(scalars);
    forall k | 0 <= k < |ns| ensures DeltaShare(ns[k], frs, cowIndexes, off[k], off[k + 1]) {
      GatheredDeltas(ns[k], points, scalars, frs, cowIndexes, off[k], off[k + 1]);
    }
  }

  /** One step of the last loop of commitNodesAtLevel. */
  method PatchUnaffected(m: InternalNode, frs: seq<Scalar>, cowIndexes: seq<nat>, from: nat, ghost ns: seq<InternalNode>)
    returns (next: nat)
    requires Patchable(m) && NoChildIn(m, ns) && m in ns && DeltaShare(m, frs, cowIndexes, from, from + |m.cow|)
    modifies m`commitment, m`cow, m`basis
    ensures next == from + |old(m.cow)| && Patched(m)
  {
    next := PatchNode(m, frs, cowIndexes, from);
    hide Commit;
  }

  method CommitNodesAtLevel(ns: seq<InternalNode>)
    requires Distinct(ns)
    requires forall k :: 0 <= k < |ns| ==> Patchable(ns[k]) && NoChildIn(ns[k], ns)
    modifies Elems(ns)`commitment, Elems(ns)`cow, Elems(ns)`basis
    ensures forall k :: 0 <= k < |ns| ==> Patched(ns[k])
  {
    hide Commit, Patchable, DeltaShare, Share, Unaffected;
    var frs, cowIndexes, off := ComputeDeltas(ns);
    var frsIdx := 0;
    var n := 0;
    while n < |ns|
      invariant 0 <= n <= |ns| && frsIdx == off[n]
      invariant forall k :: 0 <= k < n ==> Patched(ns[k])
      invariant forall k :: n <= k < |ns| ==> unchanged(ns[k])
    {
      ReadyToPatch(ns[n], ns, frs, cowIndexes, off[n], off[n + 1]);
      frsIdx := PatchUnaffected(ns[n], frs, cowIndexes, frsIdx, ns);
      forall k | 0 <= k < n ensures Patched(ns[k]) {
        assert ns[k] != ns[n];
      }
      n := n + 1;
    }
  }

  // ----- Collecting the changed nodes ------------------------------------

  /** A collected node: well-formed, its own cached commitment in order, and each child that
      carries a record collected too; all within the footprint ns, ls. */
  ghost predicate Member(m: InternalNode, added: set<InternalNode>, ns: set<InternalNode>, ls: set<LeafNode>)
    requires m in ns
    reads ns, ls
  {
    && m.nodes <= ns && m.leaves <= ls && m.Shape() && m.LocallySynced()
    && forall i :: 0 <= i < NODE_WIDTH && m.Within(m.children[i]) && m.children[i].InternalChild? ==>
         m.children[i].node.cow != map[] ==> m.children[i].node in added
  }

  ghost predicate ClosedUnderChange(added: set<InternalNode>, ns: set<InternalNode>, ls: set<LeafNode>)
    reads ns, ls
  {
    added <= ns && forall m :: m in added ==> Member(m, added, ns, ls)
  }

  lemma MemberInLarger(m: InternalNode, x: set<InternalNode>, y: set<InternalNode>, ns: set<InternalNode>, ls: set<LeafNode>, ns': set<InternalNode>, ls': set<LeafNode>)
    requires m in ns && ns <= ns' && ls <= ls' && x <= y && Member(m, x, ns, ls)
    ensures Member(m, y, ns', ls')
  {
    hide Commit, InternalNode.Shape;
  }

  lemma ClosedInLarger(x: set<InternalNode>, ns: set<InternalNode>, ls: set<LeafNode>, ns': set<InternalNode>, ls': set<LeafNode>)
    requires ns <= ns' && ls <= ls' && ClosedUnderChange(x, ns, ls)
    ensures ClosedUnderChange(x, ns', ls')
  {
    hide Member;
    forall m | m in x ensures Member(m, x, ns', ls') {
      MemberInLarger(m, x, x, ns, ls, ns', ls');
    }
  }

  lemma ClosedUnion(x: set<InternalNode>, y: set<InternalNode>, ns: set<InternalNode>, ls: set<LeafNode>)
    requires ClosedUnderChange(x, ns, ls) && ClosedUnderChange(y, ns, ls)
    ensures ClosedUnderChange(x + y, ns, ls)
  {
    hide Member;
    forall m | m in x + y ensures m in ns && Member(m, x + y, ns, ls) {
      MemberInLarger(m, if m in x then x else y, x + y, ns, ls, ns, ls);
    }
  }

  /** A node joins the nodes collected below it. */
  lemma CloseTop(n: InternalNode, below: set<InternalNode>)
    requires n in n.nodes && n.Shape() && n.Synced() && ClosedUnderChange(below, n.nodes, n.leaves)
    requires forall i :: i in n.cow && i < NODE_WIDTH && n.children[i].InternalChild? && n.children[i].node.cow != map[] ==>
               n.children[i].node in below
    ensures ClosedUnderChange(below + {n}, n.nodes, n.leaves)
  {
    assert Member(n, below + {n}, n.nodes, n.leaves) by {
      hide Commit;
      assert n.LocallySynced();
    }
    hide Member;
    forall m | m in below ensures Member(m, below + {n}, n.nodes, n.leaves) {
      MemberInLarger(m, below, below + {n}, n.nodes, n.leaves, n.nodes, n.leaves);
    }
  }

  ghost function AtDepth(ns: set<InternalNode>, d: nat): set<InternalNode>
    reads ns`depth
  {
    set m | m in ns && m.depth == d
  }

  type Levels = seq<seq<InternalNode>>

  /** `after` lists by depth what `before` listed, and `added`, nothing twice. */
  ghost predicate Listed(before: Levels, after: Levels, added: set<InternalNode>)
    reads added`depth
  {
    && |before| == |after| == STEM_SIZE
    && (forall d :: 0 <= d < STEM_SIZE ==> Distinct(after[d]))
    && (forall d :: 0 <= d < STEM_SIZE ==> Elems(after[d]) == Elems(before[d]) + AtDepth(added, d))
  }

  lemma ListedTwice(a: Levels, b: Levels, c: Levels, x: set<InternalNode>, y: set<InternalNode>)
    requires Listed(a, b, x) && Listed(b, c, y)
    ensures Listed(a, c, x + y)
  {
    forall d | 0 <= d < STEM_SIZE ensures Elems(c[d]) == Elems(a[d]) + AtDepth(x + y, d) {
      assert AtDepth(x + y, d) == AtDepth(x, d) + AtDepth(y, d);
    }
  }

  ghost predicate NotListed(levels: Levels, ns: set<InternalNode>) {
    forall d :: 0 <= d < |levels| ==> Elems(levels[d]) !! ns
  }

  lemma StillNotListed(a: Levels, b: Levels, x: set<InternalNode>, ns: set<InternalNode>)
    requires Listed(a, b, x) && NotListed(a, ns) && x !! ns
    ensures NotListed(b, ns)
  {
    forall d | 0 <= d < |b| ensures Elems(b[d]) !! ns {
      assert Elems(b[d]) == Elems(a[d]) + AtDepth(x, d);
    }
  }

  lemma ListedOne(a: Levels, n: InternalNode)
    requires |a| == STEM_SIZE && n.depth < STEM_SIZE && NotListed(a, {n})
    requires forall d :: 0 <= d < STEM_SIZE ==> Distinct(a[d])
    ensures Listed(a, a[n.depth := a[n.depth] + [n]], {n})
  {
    var b := a[n.depth := a[n.depth] + [n]];
    assert n !in a[n.depth] by {
      assert Elems(a[n.depth]) !! {n};
      assert n in a[n.depth] <==> n in Elems(a[n.depth]);
    }
    forall d | 0 <= d < STEM_SIZE ensures Elems(b[d]) == Elems(a[d]) + AtDepth({n}, d) && Distinct(b[d]) {
      if d == n.depth {
        assert AtDepth({n}, d) == {n};
      } else {
        assert AtDepth({n}, d) == {};
      }
    }
  }

  ghost predicate Changed(ns: set<InternalNode>)
    reads ns`cow, ns`depth
  {
    forall m :: m in ns ==> m.cow != map[] && m.depth < STEM_SIZE
  }

  ghost predicate AllDistinct(levels: Levels) {
    |levels| == STEM_SIZE && forall d :: 0 <= d < STEM_SIZE ==> Distinct(levels[d])
  }

  ghost predicate Collectable(n: InternalNode, levels: array<seq<InternalNode>>, path: seq<byte>)
    reads *
  {
    && n.Shape() && n.Synced() && |path| == n.depth && Trie.Valid(n.view, path)
    && AllDistinct(levels[..])
  }

  method FillChild(n: InternalNode, idx: nat, levels: array<seq<InternalNode>>, ghost path: seq<byte>)
    returns (ghost more: set<InternalNode>)
    requires Collectable(n, levels, path) && idx < NODE_WIDTH
    requires NotListed(levels[..], ChildNodes(n.children[idx]))
    modifies levels
    ensures more <= ChildNodes(n.children[idx]) && Changed(more) && ClosedUnderChange(more, n.nodes, n.leaves)
    ensures n.children[idx].InternalChild? && n.children[idx].node.cow != map[] ==> n.children[idx].node in more
    ensures Listed(old(levels[..]), levels[..], more)
    decreases n.nodes, 0
  {
    hide InternalNode.Shape, InternalNode.Slot, InternalNode.Synced, ClosedUnderChange, NotListed, AllDistinct, Listed;
    n.SlotFacts(idx);
    n.SyncedFacts(idx);
    n.ChildFootprint(idx);
    more := {};
    match n.children[idx] {
      case InternalChild(child) =>
        if |child.cow| > 0 {
          more := FillLevels(child, levels, path + [idx]);
          ClosedInLarger(more, child.nodes, child.leaves, n.nodes, n.leaves);
          return;
        }
      case EmptyChild =>
      case LeafChild(_) =>
    }
    NothingAdded(levels[..], n);
  }

  lemma NothingAdded(a: Levels, n: InternalNode)
    requires AllDistinct(a)
    ensures Listed(a, a, {}) && ClosedUnderChange({}, n.nodes, n.leaves) && Changed({})
  {
  }

  lemma NotListedSubset(a: Levels, ns: set<InternalNode>, sub: set<InternalNode>)
    requires NotListed(a, ns) && sub <= ns
    ensures NotListed(a, sub)
  {
  }

  /** What the loop over the records of `n` has collected so far. */
  ghost predicate CollectedBelow(n: InternalNode, before: Levels, levels: Levels, below: set<InternalNode>)
    reads n, n.nodes, n.leaves
  {
    && below <= n.nodes - {n} && Changed(below) && ClosedUnderChange(below, n.nodes, n.leaves)
    && Listed(before, levels, below + {n})
  }

  /** One turn of that loop. */
  method FillRecord(n: InternalNode, idx: nat, levels: array<seq<InternalNode>>, ghost path: seq<byte>,
      ghost before: Levels, ghost below: set<InternalNode>)
    returns (ghost more: set<InternalNode>)
    requires Collectable(n, levels, path) && idx < NODE_WIDTH && n in n.nodes
    requires CollectedBelow(n, before, levels[..], below) && NotListed(before, n.nodes)
    requires below !! ChildNodes(n.children[idx])
    modifies levels
    ensures more <= ChildNodes(n.children[idx]) && CollectedBelow(n, before, levels[..], below + more)
    ensures n.children[idx].InternalChild? && n.children[idx].node.cow != map[] ==> n.children[idx].node in more
    decreases n.nodes, 1
  {
    hide InternalNode.Shape, InternalNode.Slot, InternalNode.Synced, ClosedUnderChange, NotListed, Listed, AllDistinct;
    n.SlotFacts(idx);
    n.ChildFootprint(idx);
    NotListedSubset(before, n.nodes, ChildNodes(n.children[idx]));
    StillNotListed(before, levels[..], below + {n}, ChildNodes(n.children[idx]));
    ghost var mid := levels[..];
    more := FillChild(n, idx, levels, path);
    ListedTwice(before, mid, levels[..], below + {n}, more);
    ClosedUnion(below, more, n.nodes, n.leaves);
    assert below + {n} + more == (below + more) + {n};
  }

  lemma StartCollecting(n: InternalNode, before: Levels)
    requires n in n.nodes && n.depth < STEM_SIZE && AllDistinct(before) && NotListed(before, n.nodes)
    ensures CollectedBelow(n, before, before[n.depth := before[n.depth] + [n]], {})
  {
    hide Listed, ClosedUnderChange, Changed;
    NotListedSubset(before, n.nodes, {n});
    ListedOne(before, n);
    NothingAdded(before, n);
    assert {} + {n} == {n};
  }

  method FillLevels(n: InternalNode, levels: array<seq<InternalNode>>, ghost path: seq<byte>)
    returns (ghost added: set<InternalNode>)
    requires Collectable(n, levels, path) && n.cow != map[]
    requires NotListed(levels[..], n.nodes)
    modifies levels
    ensures n in added && added <= n.nodes && Changed(added) && ClosedUnderChange(added, n.nodes, n.leaves)
    ensures Listed(old(levels[..]), levels[..], added)
    decreases n.nodes, 2
  {
    hide InternalNode.Shape, InternalNode.Slot, InternalNode.Synced, ClosedUnderChange, NotListed, Listed, CollectedBelow;
    n.SlotFacts(0);
    n.RecordFacts();
    ghost var before := levels[..];
    StartCollecting(n, before);
    levels[n.depth] := levels[n.depth] + [n];
    assert levels[..] == before[n.depth := before[n.depth] + [n]];
    ghost var below: set<InternalNode> := {};
    hide Collectable;
    var todo := n.cow.Keys;
    while todo != {}
      invariant todo <= n.cow.Keys
      invariant CollectedBelow(n, before, levels[..], below)
      invariant forall j :: j in todo ==> j < NODE_WIDTH && below !! ChildNodes(n.children[j])
      invariant forall i :: i in n.cow && i !in todo && n.children[i].InternalChild? && n.children[i].node.cow != map[] ==>
        n.children[i].node in below
    {
      var idx :| idx in todo;
      todo := todo - {idx};
      n.ChildFootprint(idx);
      StillCollectable(n, levels, path, before, below);
      var more := FillRecord(n, idx, levels, path, before, below);
      below := below + more;
    }
    CollectedAll(n, before, levels[..], below);
    added := below + {n};
  }

  lemma StillCollectable(n: InternalNode, levels: array<seq<InternalNode>>, path: seq<byte>, before: Levels, below: set<InternalNode>)
    requires n.Shape() && n.Synced() && |path| == n.depth && Trie.Valid(n.view, path)
    requires CollectedBelow(n, before, levels[..], below)
    ensures Collectable(n, levels, path)
  {
    ListedIsDistinct(before, levels[..], below + {n});
  }

  lemma CollectedAll(n: InternalNode, before: Levels, levels: Levels, below: set<InternalNode>)
    requires n.Shape() && n.Synced() && n.cow != map[] && n.depth < STEM_SIZE && CollectedBelow(n, before, levels, below)
    requires forall i :: i in n.cow && i < NODE_WIDTH && n.children[i].InternalChild? && n.children[i].node.cow != map[] ==>
               n.children[i].node in below
    ensures n in below + {n} && below + {n} <= n.nodes && Changed(below + {n})
    ensures ClosedUnderChange(below + {n}, n.nodes, n.leaves) && Listed(before, levels, below + {n})
  {
    hide ClosedUnderChange, Listed, InternalNode.Shape, InternalNode.Slot, InternalNode.Synced;
    n.SlotFacts(0);
    CloseTop(n, below);
  }

  lemma ListedIsDistinct(a: Levels, b: Levels, x: set<InternalNode>)
    requires Listed(a, b, x)
    ensures AllDistinct(b)
  {
  }

  // ----- Commit ----------------------------------------------------------

  const MIN_BATCH_SIZE: nat := 4

  /** One level, in one batch or in batches of any size; each batch is one call.  Batches share no
      node and no batch holds a child of another's node, so their order does not matter. */
  method CommitLevel(ns: seq<InternalNode>, numCPU: nat)
    requires numCPU > 0 && Distinct(ns)
    requires forall k :: 0 <= k < |ns| ==> Patchable(ns[k]) && NoChildIn(ns[k], ns)
    modifies Elems(ns)`commitment, Elems(ns)`cow, Elems(ns)`basis
    ensures forall k :: 0 <= k < |ns| ==> Patched(ns[k])
  {
    hide Commit, Patchable;
    if |ns| <= MIN_BATCH_SIZE {
      CommitNodesAtLevel(ns);
      return;
    }
    var batchSize := (|ns| + numCPU - 1) / numCPU;
    if batchSize < MIN_BATCH_SIZE {
      batchSize := MIN_BATCH_SIZE;
    }
    var i := 0;
    while i < |ns|
      invariant 0 <= i <= |ns|
      invariant forall k :: 0 <= k < i ==> Patched(ns[k])
      invariant forall k :: i <= k < |ns| ==> unchanged(ns[k])
    {
      var end := if i + batchSize > |ns| then |ns| else i + batchSize;
      forall k | i <= k < end ensures Unaffected(ns[k]) {
        StillUnaffected(ns[k], ns);
      }
      CommitBatch(ns, i, end);
      i := end;
    }
  }

  method CommitBatch(ns: seq<InternalNode>, start: nat, end: nat)
    requires start <= end <= |ns| && Distinct(ns)
    requires forall k :: start <= k < end ==> Patchable(ns[k])
    requires forall k :: 0 <= k < |ns| ==> NoChildIn(ns[k], ns)
    modifies Elems(ns[start..end])`commitment, Elems(ns[start..end])`cow, Elems(ns[start..end])`basis
    ensures forall k :: start <= k < end ==> Patched(ns[k])
  {
    hide Commit, Patchable, Patched;
    var batch := ns[start..end];
    forall k | 0 <= k < |batch| ensures Patchable(batch[k]) && NoChildIn(batch[k], batch) {
      assert batch[k] == ns[start + k];
    }
    CommitNodesAtLevel(batch);
    forall k | start <= k < end ensures Patched(ns[k]) {
      assert batch[k - start] == ns[k];
    }
  }

  /** The collected nodes while the levels are worked off from the bottom: every one has its
      commitment in order, and those at `depth` or deeper have no record left. */
  ghost predicate InOrder(n: InternalNode, added: set<InternalNode>, depth: nat)
    reads n, n.nodes, n.leaves
  {
    && ClosedUnderChange(added, n.nodes, n.leaves)
    && forall m :: m in added ==> (m.depth >= depth ==> m.cow == map[]) && (m.depth < depth ==> m.cow != map[])
  }

  /** What the nodes of one level need to be patched. */
  lemma LevelIsPatchable(n: InternalNode, added: set<InternalNode>, depth: nat, ns: seq<InternalNode>)
    requires InOrder(n, added, depth + 1) && Elems(ns) == AtDepth(added, depth)
    ensures forall k :: 0 <= k < |ns| ==> Patchable(ns[k]) && NoChildIn(ns[k], ns)
  {
    forall k | 0 <= k < |ns| ensures Patchable(ns[k]) && NoChildIn(ns[k], ns) {
      assert ns[k] in Elems(ns);
      NodeIsPatchable(ns[k]);
      forall i | 0 <= i < NODE_WIDTH && ns[k].children[i].InternalChild?
        ensures ns[k].children[i].node !in ns
      {
        ns[k].SlotFacts(i);
        assert ns[k].children[i].node in ns <==> ns[k].children[i].node in Elems(ns);
      }
    }
  }

  lemma NodeIsPatchable(m: InternalNode)
    requires m.Shape() && m.LocallySynced()
    ensures Patchable(m)
  {
    hide Commit;
    forall i | i in m.cow ensures i < NODE_WIDTH && m.basis[i] == MapToScalarField(m.cow[i]) {
      assert m.Within(m.children[i]);
    }
  }

  /** A node patched while its children are done has nothing left to do. */
  twostate lemma PatchedIsDone(m: InternalNode)
    requires old(m.Shape()) && old(m.LocallySynced()) && m.Shape() && Patched(m)
    requires m.nodes == old(m.nodes) && m.leaves == old(m.leaves)
    requires forall l :: l in m.leaves ==> unchanged(l)
    requires forall i :: 0 <= i < NODE_WIDTH && m.children[i].InternalChild? ==> m.children[i].node.cow == map[]
    requires forall i :: 0 <= i < NODE_WIDTH ==>
               ChildCommitment(m.children[i]) == old(ChildCommitment(m.children[i]))
    ensures m.LocallySynced() && m.cow == map[]
  {
    hide Commit;
  }

  /** A node of another level keeps its commitment in order: a child that was patched had a
      record of its own, so this node has recorded the child's old commitment. */
  twostate lemma NeighbourKept(m: InternalNode, new level: set<InternalNode>)
    requires old(m.Shape()) && old(m.LocallySynced()) && unchanged(m) && m.Shape()
    requires forall l :: l in m.leaves ==> unchanged(l)
    requires forall o :: o in m.nodes && o !in level ==> unchanged(o)
    requires forall o :: o in m.nodes && o in level ==> old(o.cow) != map[] && o.cow == map[]
    ensures m.LocallySynced()
  {
    hide Commit;
    forall i | 0 <= i < NODE_WIDTH
      ensures m.Within(m.children[i])
    {
    }
    hide InternalNode.Shape;
  }

  /** Nothing but cached commitments, records and their bases may have changed. */
  twostate predicate StructureKept(n: InternalNode)
    reads *
  {
    && n.nodes == old(n.nodes) && n.leaves == old(n.leaves)
    && (forall o :: o in n.nodes ==>
          && o.children == old(o.children) && o.depth == old(o.depth) && o.nodes == old(o.nodes)
          && o.leaves == old(o.leaves) && o.view == old(o.view))
    && (forall l :: l in n.leaves ==> unchanged(l))
  }

  twostate lemma StructureKeepsShape(n: InternalNode)
    requires old(n.Shape()) && StructureKept(n)
    ensures n.Shape()
  {
    assert n in old(n.nodes);
    hide InternalNode.Shape, InternalNode.Slot;
  }

  /** One level done: the invariant moves up by one. */
  twostate lemma DoneAtLevel(m: InternalNode, new ns: seq<InternalNode>)
    requires m in ns && Patched(m) && old(m.Shape()) && old(m.LocallySynced()) && m.Shape() && StructureKept(m)
    requires forall o :: o in m.nodes && o !in ns ==> unchanged(o)
    requires NoChildIn(m, ns)
    requires forall i :: 0 <= i < NODE_WIDTH && m.children[i].InternalChild? ==> m.children[i].node.cow == map[]
    ensures m.LocallySynced() && m.cow == map[]
  {
    hide Commit;
    forall i | 0 <= i < NODE_WIDTH
      ensures ChildCommitment(m.children[i]) == old(ChildCommitment(m.children[i]))
    {
      m.SlotFacts(i);
      if m.children[i].InternalChild? {
        assert m.children[i].node in m.children[i].node.nodes;
      }
    }
    PatchedIsDone(m);
  }

  /** The state after the nodes `ns` of one level were patched. */
  twostate predicate LevelPatched(n: InternalNode, new added: set<InternalNode>, new level: nat, new ns: seq<InternalNode>)
    reads *
  {
    && added <= old(n.nodes) && Elems(ns) <= old(n.nodes)
    && StructureKept(n) && old(InOrder(n, added, level + 1)) && Elems(ns) == AtDepth(added, level)
    && (forall k :: 0 <= k < |ns| ==> ns[k] in Elems(ns) && NoChildIn(ns[k], ns) && Patched(ns[k]))
    && (forall o :: o in n.nodes && o !in ns ==> unchanged(o))
  }

  twostate lemma PatchedHasNoRecord(o: InternalNode)
    requires Patched(o)
    ensures o.cow == map[]
  {
  }

  twostate lemma MemberStructure(n: InternalNode, new added: set<InternalNode>, new level: nat, new ns: seq<InternalNode>, new m: InternalNode)
    requires n in old(n.nodes) && LevelPatched(n, added, level, ns) && m in added
    ensures m.nodes <= n.nodes && m.leaves <= n.leaves && old(m.Shape()) && old(m.LocallySynced())
    ensures m.Shape() && StructureKept(m)
    ensures m.depth == old(m.depth) && (m.depth > level ==> old(m.cow) == map[]) && (m.depth <= level ==> old(m.cow) != map[])
  {
    hide Commit, Patched, InternalNode.Shape, InternalNode.LocallySynced;
    assert m in old(n.nodes);
    StructureKeepsShape(m);
  }

  /** A child that still carries a record was collected; one that was patched does not. */
  twostate lemma ChildAfterLevel(n: InternalNode, new added: set<InternalNode>, new level: nat, new ns: seq<InternalNode>, new m: InternalNode, new i: nat)
    requires n in old(n.nodes) && LevelPatched(n, added, level, ns) && m in added && i < NODE_WIDTH
    requires m.nodes <= n.nodes && m.Shape() && m.children[i].InternalChild?
    ensures m.depth == level ==> m.children[i].node.cow == map[]
    ensures m.children[i].node.cow != map[] ==> m.children[i].node in added
  {
    hide Commit, Patched;
    m.SlotFacts(i);
    var c := m.children[i].node;
    assert c in c.nodes;
    assert old(m.Within(m.children[i]));
    if c in Elems(ns) {
      var k :| 0 <= k < |ns| && ns[k] == c;
      PatchedHasNoRecord(c);
    } else {
      assert unchanged(c);
    }
  }

  twostate lemma MemberAfterLevel(n: InternalNode, new added: set<InternalNode>, new level: nat, new ns: seq<InternalNode>, new m: InternalNode)
    requires n in old(n.nodes) && LevelPatched(n, added, level, ns) && m in added
    ensures m in n.nodes && Member(m, added, n.nodes, n.leaves)
    ensures (m.depth >= level ==> m.cow == map[]) && (m.depth < level ==> m.cow != map[])
  {
    hide Commit, Patched;
    MemberStructure(n, added, level, ns, m);
    if m.depth == level {
      assert m in Elems(ns);
      forall i | 0 <= i < NODE_WIDTH && m.children[i].InternalChild? ensures m.children[i].node.cow == map[] {
        ChildAfterLevel(n, added, level, ns, m, i);
      }
      var k :| 0 <= k < |ns| && ns[k] == m;
      DoneAtLevel(m, ns);
    } else {
      assert m !in ns by {
        assert m !in Elems(ns);
      }
      forall o | o in m.nodes && o in Elems(ns) ensures old(o.cow) != map[] && o.cow == map[] {
        var k :| 0 <= k < |ns| && ns[k] == o;
        PatchedHasNoRecord(o);
      }
      NeighbourKept(m, Elems(ns));
    }
    forall i | 0 <= i < NODE_WIDTH && m.children[i].InternalChild? && m.children[i].node.cow != map[]
      ensures m.children[i].node in added
    {
      ChildAfterLevel(n, added, level, ns, m, i);
    }
  }

  twostate lemma LevelDone(n: InternalNode, new added: set<InternalNode>, new level: nat, new ns: seq<InternalNode>)
    requires n in old(n.nodes) && LevelPatched(n, added, level, ns)
    ensures InOrder(n, added, level)
  {
    assert added <= n.nodes;
    hide Member, LevelPatched;
    forall m | m in added
      ensures Member(m, added, n.nodes, n.leaves)
      ensures (m.depth >= level ==> m.cow == map[]) && (m.depth < level ==> m.cow != map[])
    {
      MemberAfterLevel(n, added, level, ns, m);
    }
  }

  /** A clean node that was not collected is as it was, and so is everything below it. */
  twostate predicate Finished(n: InternalNode, new added: set<InternalNode>)
    reads *
  {
    && n in old(n.nodes) && added <= old(n.nodes) && StructureKept(n) && InOrder(n, added, 0)
    && old(Changed(added)) && old(ClosedUnderChange(added, n.nodes, n.leaves))
    && (forall o :: o in n.nodes && o !in added ==> unchanged(o))
  }

  twostate lemma CleanNodeKept(m: InternalNode)
    requires old(m.Shape()) && old(m.LocallySynced()) && unchanged(m) && m.Shape()
    requires forall l :: l in m.leaves ==> unchanged(l)
    requires forall i :: 0 <= i < NODE_WIDTH && m.children[i].InternalChild? ==> unchanged(m.children[i].node)
    ensures m.LocallySynced()
  {
    hide Commit;
    forall i | 0 <= i < NODE_WIDTH ensures m.Within(m.children[i]) {
    }
    hide InternalNode.Shape;
  }

  /** What a collected or clean node hands down to a child. */
  twostate lemma ChildInherits(n: InternalNode, new added: set<InternalNode>, new m: InternalNode, new i: nat)
    requires Finished(n, added) && m in n.nodes && m.nodes <= n.nodes && m.leaves <= n.leaves && m.Shape()
    requires old(m.Shape()) && old(m.Synced())
    requires m in added || old(m.cow) == map[]
    requires i < NODE_WIDTH && m.children[i].InternalChild?
    ensures var c := m.children[i].node;
      && c in n.nodes && c.nodes <= n.nodes && c.leaves <= n.leaves && c.Shape() && c.nodes < m.nodes
      && old(allocated(c)) && old(c.Shape()) && old(c.Synced()) && (c in added || old(c.cow) == map[])
      && (m !in added ==> unchanged(c))
  {
    hide Commit;
    m.SlotFacts(i);
    assert old(m.Slot(m.children[i], m.view.children[i]));
    assert old(m.Within(m.children[i]));
    hide InternalNode.Shape;
  }

  twostate lemma SyncedAgain(n: InternalNode, new added: set<InternalNode>, new m: InternalNode)
    requires Finished(n, added) && m in n.nodes && m.nodes <= n.nodes && m.leaves <= n.leaves && m.Shape()
    requires old(m.Shape()) && old(m.Synced())
    requires m in added || old(m.cow) == map[]
    ensures m.Synced() && m.cow == map[]
    decreases m.nodes
  {
    forall i | 0 <= i < NODE_WIDTH && m.children[i].InternalChild?
      ensures m.children[i].node.Shape() && m.children[i].node.Synced()
      ensures m !in added ==> unchanged(m.children[i].node)
    {
      ChildInherits(n, added, m, i);
      SyncedAgain(n, added, m.children[i].node);
    }
    if m !in added {
      CleanNodeKept(m);
    }
    SyncedFromParts(m);
  }

  lemma SyncedFromParts(m: InternalNode)
    requires m.Shape() && m.LocallySynced()
    requires forall i :: 0 <= i < NODE_WIDTH && m.children[i].InternalChild? ==>
               m.children[i].node.Shape() && m.children[i].node.Synced()
    ensures m.Synced()
  {
    hide Commit;
  }

  method CommitOneLevel(n: InternalNode, ns: seq<InternalNode>, numCPU: nat, ghost added: set<InternalNode>, ghost level: nat)
    requires numCPU > 0 && n in n.nodes && Distinct(ns) && Elems(ns) == AtDepth(added, level)
    requires InOrder(n, added, level + 1)
    modifies Elems(ns)`commitment, Elems(ns)`cow, Elems(ns)`basis
    ensures InOrder(n, added, level)
  {
    hide Commit, Patchable, Patched, InternalNode.Shape, InternalNode.LocallySynced;
    LevelIsPatchable(n, added, level, ns);
    if |ns| > 0 {
      CommitLevel(ns, numCPU);
    }
    LevelDone(n, added, level, ns);
  }

  /** A synced subtree without records carries the commitments of a computation from scratch. */
  lemma {:induction false} CleanMeansCommitted(n: InternalNode)
    requires n.Shape() && n.Synced() && n.cow == map[]
    ensures n.commitment == Trie.Commitment(n.view)
    ensures forall i :: 0 <= i < NODE_WIDTH ==> ChildCommitment(n.children[i]) == Trie.Commitment(n.view.children[i])
    decreases n.nodes
  {
    forall i | 0 <= i < NODE_WIDTH
      ensures ChildCommitment(n.children[i]) == Trie.Commitment(n.view.children[i])
    {
      n.SlotFacts(i);
      n.SyncedFacts(i);
      if n.children[i].InternalChild? {
        CleanMeansCommitted(n.children[i].node);
      }
    }
    hide Commit;
    assert n.basis == Trie.ChildScalars(n.view.children);
  }

  lemma CollectedIsInOrder(n: InternalNode, added: set<InternalNode>)
    requires ClosedUnderChange(added, n.nodes, n.leaves) && Changed(added)
    ensures InOrder(n, added, STEM_SIZE)
  {
    hide InternalNode.Shape, InternalNode.LocallySynced;
  }

  /** Patches the collected levels, deepest first. */
  method CommitLevels(n: InternalNode, levels: Levels, numCPU: nat, ghost added: set<InternalNode>)
    requires numCPU > 0 && n.Shape() && n.Synced() && n in added
    requires Changed(added) && ClosedUnderChange(added, n.nodes, n.leaves)
    requires |levels| == STEM_SIZE
    requires forall d :: 0 <= d < STEM_SIZE ==> Distinct(levels[d]) && Elems(levels[d]) == AtDepth(added, d)
    modifies n.nodes`commitment, n.nodes`cow, n.nodes`basis
    ensures n.Shape() && n.Synced() && n.cow == map[]
  {
    hide InternalNode.Shape, InternalNode.Synced, InternalNode.LocallySynced, ClosedUnderChange, InOrder, Changed;
    CollectedIsInOrder(n, added);
    ClosedWithin(added, n);
    var level := |levels|;
    while level > 0
      invariant 0 <= level <= STEM_SIZE
      invariant InOrder(n, added, level)
      invariant forall o :: o in n.nodes && o !in added ==> unchanged(o)
    {
      level := level - 1;
      CommitOneLevel(n, levels[level], numCPU, added, level);
    }
    AllLevelsDone(n, added);
  }

  twostate lemma AllLevelsDone(n: InternalNode, new added: set<InternalNode>)
    requires old(n.Shape()) && old(n.Synced()) && n in added && added <= old(n.nodes) && StructureKept(n)
    requires InOrder(n, added, 0) && old(Changed(added)) && old(ClosedUnderChange(added, n.nodes, n.leaves))
    requires forall o :: o in n.nodes && o !in added ==> unchanged(o)
    ensures n.Shape() && n.Synced() && n.cow == map[]
  {
    hide InternalNode.Shape, InternalNode.Synced, InternalNode.LocallySynced, ClosedUnderChange, InOrder;
    StructureKeepsShape(n);
    FinishedFacts(n, added);
    SyncedAgain(n, added, n);
  }

  lemma ClosedWithin(added: set<InternalNode>, n: InternalNode)
    requires ClosedUnderChange(added, n.nodes, n.leaves)
    ensures added <= n.nodes
  {
  }

  twostate lemma FinishedFacts(n: InternalNode, new added: set<InternalNode>)
    requires n in old(n.nodes) && added <= old(n.nodes) && StructureKept(n) && InOrder(n, added, 0)
    requires old(Changed(added)) && old(ClosedUnderChange(added, n.nodes, n.leaves))
    requires forall o :: o in n.nodes && o !in added ==> unchanged(o)
    ensures Finished(n, added)
  {
  }

  method CommitRoot(n: InternalNode, numCPU: nat, ghost path: seq<byte>) returns (commitment: Point)
    requires n.Shape() && n.Synced() && |path| == n.depth && Trie.Valid(n.view, path) && numCPU > 0
    modifies n.nodes`commitment, n.nodes`cow, n.nodes`basis
    ensures n.Shape() && n.Synced() && n.cow == map[]
    ensures commitment == n.commitment == Trie.Commitment(n.view)
  {
    hide InternalNode.Shape, InternalNode.Synced, InternalNode.LocallySynced, ClosedUnderChange;
    if |n.cow| == 0 {
      CleanMeansCommitted(n);
      return n.commitment;
    }
    var levels := new seq<InternalNode>[STEM_SIZE](_ => []);
    ghost var before := levels[..];
    NothingListed(before, n.nodes);
    var added := FillLevels(n, levels, path);
    forall d | 0 <= d < STEM_SIZE
      ensures Distinct(levels[..][d]) && Elems(levels[..][d]) == AtDepth(added, d)
    {
      assert Elems(before[d]) == {};
    }
    CommitLevels(n, levels[..], numCPU, added);
    CleanMeansCommitted(n);
    commitment := n.commitment;
  }

  lemma NothingListed(levels: Levels, ns: set<InternalNode>)
    requires |levels| == STEM_SIZE && forall d :: 0 <= d < STEM_SIZE ==> levels[d] == []
    ensures NotListed(levels, ns) && AllDistinct(levels)
  {
  }
}
