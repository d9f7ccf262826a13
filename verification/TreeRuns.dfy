/** Runs of insertions and deletions on the heap tree, each followed by Commit. */
module TreeRuns {
  import opened VerkleTypes
  import opened InternalNodes
  import Commits
  import Trie
  import TrieRuns

  /** A fresh tree after the writes `ws`, committed: every cached commitment is the one computed from
      scratch, and the trie is the one of the run.  A value over 32 bytes stops the run. */
  method InsertAll(ws: seq<TrieRuns.Write>, numCPU: nat) returns (root: InternalNode, err: bool)
    requires numCPU > 0
    ensures err <==> exists i :: 0 <= i < |ws| && TooLong(ws[i].value)
    ensures !err ==> fresh(root) && root.Shape() && root.Synced() && root.Ready() && root.cow == map[] && root.depth == 0
    ensures !err ==> fresh(root.nodes) && fresh(root.leaves)
    ensures !err ==> root.view == TrieRuns.Run(ws) && root.commitment == Trie.Commitment(root.view)
  {
    hide InternalNode.Shape, InternalNode.Synced, InternalNode.Ready, Trie.Insert;
    root := new InternalNode(0);
    err := false;
    var i := 0;
    while i < |ws|
      invariant 0 <= i <= |ws| && fresh(root) && !err && forall j :: 0 <= j < i ==> !TooLong(ws[j].value)
      invariant root.Shape() && root.Synced() && root.Ready() && root.depth == 0 && root in root.nodes
      invariant fresh(root.nodes) && fresh(root.leaves)
      invariant root.view == TrieRuns.Run(ws[..i])
    {
      assert KeyToStem(ws[i].key)[..0] == [] && ws[..i + 1][..i] == ws[..i];
      err := root.Insert(ws[i].key, ws[i].value);
      if err {
        return;
      }
      i := i + 1;
    }
    assert ws[..i] == ws;
    var c := Commits.CommitRoot(root, numCPU, []);
  }

  /** Deleting keys that hold a value, one after the other, then Commit: what is left is the trie of the
      deletions, with every cached commitment as computed from scratch. */
  method DeleteAll(root: InternalNode, ks: seq<Key>, numCPU: nat)
    requires numCPU > 0 && root.Shape() && root.Synced() && root.depth == 0
    requires Trie.Valid(root.view, []) && Trie.Populated(root.view, 0) && TrieRuns.Solid(root.view)
    requires forall k :: k in ks ==> Trie.Get(root.view, k).Len() > 0
    requires forall i, j :: 0 <= i < j < |ks| ==> ks[i] != ks[j]
    modifies root.nodes, root.leaves
    ensures root.Shape() && root.Synced() && root.cow == map[]
    ensures root.view == TrieRuns.Deletes(old(root.view), ks) && root.commitment == Trie.Commitment(root.view)
    ensures forall key: Key :: Trie.Get(root.view, key) == if key in ks then Nil else Trie.Get(old(root.view), key)
    ensures Trie.Valid(root.view, []) && Trie.Populated(root.view, 0) && TrieRuns.Solid(root.view)
  {
    hide InternalNode.Shape, InternalNode.Synced, InternalNode.Deletable, Trie.Delete, Trie.Get, Trie.Valid, Trie.Populated, TrieRuns.Solid;
    ghost var t := root.view;
    ViewIsNode(root);
    var i := 0;
    while i < |ks|
      invariant 0 <= i <= |ks| && root.Shape() && root.Synced() && root.depth == 0 && root.view.Node?
      invariant root.nodes <= old(root.nodes) && root.leaves <= old(root.leaves)
      invariant root.view == TrieRuns.Deletes(t, ks[..i])
    {
      TrieRuns.GetAfterDeletes(t, ks[..i]);
      assert ks[i] in ks && ks[i] !in ks[..i];
      PresentKey(root, ks[i]);
      assert ks[..i + 1][..i] == ks[..i];
      var gone := root.Delete(ks[i]);
      i := i + 1;
    }
    assert ks[..i] == ks;
    TrieRuns.GetAfterDeletes(t, ks);
    var c := Commits.CommitRoot(root, numCPU, []);
  }

  lemma ViewIsNode(root: InternalNode)
    requires root.Shape()
    ensures root.view.Node?
  {
  }

  lemma PresentKey(root: InternalNode, key: Key)
    requires root.Shape() && root.Synced() && root.depth == 0 && Trie.Valid(root.view, []) && Trie.Get(root.view, key).Len() > 0
    ensures key[..0] == [] && root.Deletable(key)
  {
    assert key[..0] == [];
    root.PresentIsDeletable(key);
  }

  /** Insertions of non-empty values, deletions of some of the keys written, and Commit after each run. */
  method InsertThenDelete(ws: seq<TrieRuns.Write>, ks: seq<Key>, numCPU: nat) returns (root: InternalNode, err: bool)
    requires numCPU > 0 && TrieRuns.NonEmpty(ws)
    requires forall k :: k in ks ==> TrieRuns.Latest(ws, k) != Nil
    requires forall i, j :: 0 <= i < j < |ks| ==> ks[i] != ks[j]
    ensures err <==> exists i :: 0 <= i < |ws| && TooLong(ws[i].value)
    ensures !err ==> root.Shape() && root.commitment == Trie.Commitment(root.view)
    ensures !err ==> forall key: Key :: Trie.Get(root.view, key) == if key in ks then Nil else TrieRuns.Latest(ws, key)
  {
    hide InternalNode.Shape, InternalNode.Synced, InternalNode.Ready, Trie.Get, TrieRuns.Latest, TrieRuns.Run, Trie.Commitment;
    root, err := InsertAll(ws, numCPU);
    if err {
      return;
    }
    TrieRuns.RunIsSolid(ws);
    TrieRuns.RunIsCanonical(ws);
    Trie.CanonicalIsPopulated(root.view, []);
    forall key: Key ensures Trie.Get(root.view, key) == TrieRuns.Latest(ws, key) {
      TrieRuns.GetAfterRun(ws, key);
    }
    forall k | k in ks ensures Trie.Get(root.view, k).Len() > 0 {
      TrieRuns.LatestIsSolid(ws, k);
    }
    DeleteAll(root, ks, numCPU);
  }
}
