/** The heap tree as prover's tree: after Commit the cached fields are exactly those that proofs
    are extracted from. */
module Snapshot {
  import opened Pedersen
  import opened VerkleTypes
  import opened LeafNodes
  import opened InternalNodes
  import Commits
  import Extraction
  import M = Multiproof

  function PointOf(c: Cached): Point {
    if c.Set? then c.point else IDENTITY
  }

  /** The node and everything below it, with the commitments that are cached in them. */
  function NodeOf(n: InternalNode): (r: M.Node)
    requires n.Shape()
    reads n, n.nodes, n.leaves
    ensures r.Internal? && |r.children| == NODE_WIDTH && r.comm == n.commitment
    decreases n.nodes, 1
  {
    M.Internal(seq(NODE_WIDTH, i requires 0 <= i < NODE_WIDTH && n.Shape() reads n, n.nodes, n.leaves => ChildOf(n, i)), n.commitment)
  }

  function ChildOf(n: InternalNode, i: nat): M.Node
    requires n.Shape() && i < NODE_WIDTH
    reads n, n.nodes, n.leaves
    decreases n.nodes, 0
  {
    assert n.Slot(n.children[i], n.view.children[i]);
    match n.children[i]
    case EmptyChild => M.Empty
    case LeafChild(l) => M.Leaf(l.stem, l.values, l.commitment, PointOf(l.c1), PointOf(l.c2))
    case InternalChild(c) =>
      assert c.nodes < n.nodes;
      NodeOf(c)
  }

  /** After Commit the cached commitments are the ones computed from scratch, node by node. */
  lemma {:induction false} CommittedIsResolved(n: InternalNode)
    requires n.Shape() && n.Synced() && n.Ready() && n.cow == map[]
    ensures NodeOf(n) == M.Resolved(n.view)
    decreases n.nodes, 1
  {
    Commits.CleanMeansCommitted(n);
    var r := M.Resolved(n.view);
    forall i | 0 <= i < NODE_WIDTH ensures NodeOf(n).children[i] == r.children[i] {
      CommittedChild(n, i);
    }
    assert NodeOf(n).children == r.children;
  }

  lemma {:induction false} CommittedChild(n: InternalNode, i: nat)
    requires n.Shape() && n.Synced() && n.Ready() && n.cow == map[] && i < NODE_WIDTH
    ensures ChildOf(n, i) == M.Resolved(n.view.children[i])
    decreases n.nodes, 0
  {
    assert n.Slot(n.children[i], n.view.children[i]);
    n.SyncedFacts(i);
    match n.children[i]
    case EmptyChild =>
    case LeafChild(l) =>
      assert l.Ready();
      assert l.Synced();
    case InternalChild(c) =>
      assert c.Ready();
      assert c.cow == map[] by {
        assert n.Within(n.children[i]);
        assert n.LocallySynced();
      }
      CommittedIsResolved(c);
  }

  /** A synced tree holds no over-long value. */
  lemma {:induction false} SyncedIsShort(n: InternalNode)
    requires n.Shape() && n.Synced()
    ensures Extraction.Short(n.view)
    decreases n.nodes
  {
    forall i | 0 <= i < NODE_WIDTH ensures Extraction.Short(n.view.children[i]) {
      assert n.Slot(n.children[i], n.view.children[i]);
      n.SyncedFacts(i);
      if n.children[i].InternalChild? {
        SyncedIsShort(n.children[i].node);
      }
    }
  }
}
