/** Build: the run of insertions and the Commit that make a tree out of 32-byte leaves. */
module VerkleTrees {
  import opened VerkleTypes
  import opened InternalNodes
  import Commits
  import Extraction
  import M = Multiproof
  import Proofs
  import ProofPlan
  import Readings
  import Rebuild
  import RoundTrip
  import Snapshot
  import Stateless
  import Trie
  import TrieRuns
  import Wire

  /** A leaf as Build receives it: long enough for the key it is cut down to. */
  type RawLeaf = s: seq<byte> | |s| >= KEY_SIZE witness seq(KEY_SIZE, _ => 0)

  function LeafKey(leaf: RawLeaf): Key {
    leaf[..KEY_SIZE]
  }

  /** Each leaf is written under itself. */
  function Writes(leaves: seq<RawLeaf>): (ws: seq<TrieRuns.Write>)
    ensures |ws| == |leaves|
    ensures forall i :: 0 <= i < |leaves| ==> ws[i] == TrieRuns.Write(LeafKey(leaves[i]), Bytes(leaves[i]))
    ensures TrieRuns.NonEmpty(ws)
  {
    seq(|leaves|, i requires 0 <= i < |leaves| => TrieRuns.Write(LeafKey(leaves[i]), Bytes(leaves[i])))
  }

  predicate AllKeySized(leaves: seq<RawLeaf>) {
    forall i :: 0 <= i < |leaves| ==> |leaves[i]| == KEY_SIZE
  }

  lemma WritesGrow(leaves: seq<RawLeaf>, i: nat)
    requires i < |leaves|
    ensures var before, w := Writes(leaves[..i]), TrieRuns.Write(LeafKey(leaves[i]), Bytes(leaves[i]));
            && AllKeySized(leaves[..i + 1]) == (AllKeySized(leaves[..i]) && |leaves[i]| == KEY_SIZE)
            && TrieRuns.Run(Writes(leaves[..i + 1]))
               == Trie.Insert(TrieRuns.Run(before), 0, KeyToStem(w.key), Trie.Single(w.key, w.value))
  {
    hide Trie.Insert;
    assert KeyToStem(LeafKey(leaves[i]))[..0] == [];
    assert leaves[..i + 1] == leaves[..i] + [leaves[i]];
    assert Writes(leaves[..i + 1])[..i] == Writes(leaves[..i]);
  }

  lemma {:induction false} LatestLeaf(leaves: seq<RawLeaf>, key: Key)
    requires AllKeySized(leaves)
    ensures TrieRuns.Latest(Writes(leaves), key) == if key in leaves then Bytes(key) else Nil
  {
    if leaves != [] {
      var init, last := leaves[..|leaves| - 1], leaves[|leaves| - 1];
      LatestLeaf(init, key);
      assert leaves == init + [last] && LeafKey(last) == last;
      assert Writes(leaves)[..|leaves| - 1] == Writes(init);
    }
  }

  /** The trie of Build stores each leaf under itself and nothing else. */
  lemma BuiltMembership(leaves: seq<RawLeaf>, key: Key)
    requires AllKeySized(leaves)
    ensures Trie.Get(TrieRuns.Run(Writes(leaves)), key) == if key in leaves then Bytes(key) else Nil
  {
    LatestLeaf(leaves, key);
    TrieRuns.GetAfterRun(Writes(leaves), key);
  }

  ghost predicate SameMembers(a: seq<RawLeaf>, b: seq<RawLeaf>) {
    forall key: Key :: key in a <==> key in b
  }

  /** Order and repetition of the leaves are irrelevant: the trie depends on their set alone, and it
      tells different sets apart. */
  lemma BuildDependsOnSet(a: seq<RawLeaf>, b: seq<RawLeaf>)
    requires AllKeySized(a) && AllKeySized(b)
    ensures SameMembers(a, b) <==> TrieRuns.Run(Writes(a)) == TrieRuns.Run(Writes(b))
  {
    SameMembersSameLatest(a, b);
    TrieRuns.MapDeterminesTrie(Writes(a), Writes(b));
  }

  lemma SameMembersSameLatest(a: seq<RawLeaf>, b: seq<RawLeaf>)
    requires AllKeySized(a) && AllKeySized(b)
    ensures SameMembers(a, b) <==> TrieRuns.SameLatest(Writes(a), Writes(b))
  {
    forall key: Key
      ensures TrieRuns.Latest(Writes(a), key) == if key in a then Bytes(key) else Nil
      ensures TrieRuns.Latest(Writes(b), key) == if key in b then Bytes(key) else Nil
    {
      LatestLeaf(a, key);
      LatestLeaf(b, key);
    }
    hide TrieRuns.Latest, Writes;
    if TrieRuns.SameLatest(Writes(a), Writes(b)) {
      forall key: Key ensures key in a <==> key in b {
        assert TrieRuns.Latest(Writes(a), key) == TrieRuns.Latest(Writes(b), key);
      }
    }
  }

  /** Membership and absence shown to somebody who has the root commitment only: the proof for one 32-byte
      string arrives over the wire as it was made, and the tree rebuilt from it answers with the string when
      it is a leaf, with nil when not. */
  lemma MembershipProof(leaves: seq<RawLeaf>, key: Key)
    requires AllKeySized(leaves)
    ensures M.Placed(M.Resolved(TrieRuns.Run(Writes(leaves))), [])
    ensures var t := TrieRuns.Run(Writes(leaves));
            var sent := RoundTrip.ProofOf(M.Resolved(t), [key], [Nil]);
            && Wire.Fits(sent.preValues) && Wire.OverWire(sent) == sent
            && var rebuilt := Rebuild.TreeFromProof(Wire.OverWire(sent), Trie.Commitment(t));
               rebuilt.Ok? && Stateless.ReadAt(rebuilt.value.node, 0, key) == Stateless.Answer(if key in leaves then Bytes(key) else Nil)
  {
    BuiltMembership(leaves, key);
    assert key in [key];
    Wire.RoundTripOverWire(TrieRuns.Run(Writes(leaves)), [key], [Nil]);
  }

  /** The status byte of a proof for one key tells membership: 2 modulo 4 for a leaf of the tree or its stem,
      8 times the depth above that. */
  lemma StatusTellsMembership(leaves: seq<RawLeaf>, key: Key)
    requires AllKeySized(leaves) && M.Placed(M.Resolved(TrieRuns.Run(Writes(leaves))), [])
    ensures var t := TrieRuns.Run(Writes(leaves));
            var es := RoundTrip.ProofOf(M.Resolved(t), [key], [Nil]).extStatus;
            && |es| == 1 && es[0] / 8 == Readings.EndDepth(t, 0, KeyToStem(key))
            && (es[0] % 4 == 2 <==> exists k: Key :: k in leaves && KeyToStem(k) == KeyToStem(key))
  {
    hide M.Resolved, M.Placed, TrieRuns.Run, Trie.Find, Readings.End, Readings.EndDepth, RoundTrip.ProofOf;
    StatusOfOneKey(TrieRuns.Run(Writes(leaves)), key);
    TrieRuns.RunDescribes(Writes(leaves), KeyToStem(key));
    StemTouched(leaves, KeyToStem(key));
  }

  lemma StemTouched(leaves: seq<RawLeaf>, stem: Stem)
    requires AllKeySized(leaves)
    ensures TrieRuns.Touched(Writes(leaves), stem) <==> exists k: Key :: k in leaves && KeyToStem(k) == stem
  {
    if TrieRuns.Touched(Writes(leaves), stem) {
      var i :| 0 <= i < |leaves| && KeyToStem(Writes(leaves)[i].key) == stem;
      assert LeafKey(leaves[i]) == leaves[i];
      assert leaves[i] in leaves;
    }
    if exists k: Key :: k in leaves && KeyToStem(k) == stem {
      var k: Key :| k in leaves && KeyToStem(k) == stem;
      var i :| 0 <= i < |leaves| && leaves[i] == k;
      assert Writes(leaves)[i].key == k;
    }
  }

  lemma StatusOfOneKey(t: Trie.Tree, key: Key)
    requires t.Node? && Trie.Valid(t, []) && M.Placed(M.Resolved(t), [])
    ensures var es, d, end := RoundTrip.ProofOf(M.Resolved(t), [key], [Nil]).extStatus,
                              Readings.EndDepth(t, 0, KeyToStem(key)), Readings.End(t, 0, KeyToStem(key));
            && |es| == 1 && !end.Node?
            && es[0] as int == 8 * d + (if end.Empty? then 0 else if end.stem == KeyToStem(key) then 2 else 1)
            && (es[0] % 4 == 2 <==> Trie.Find(t, 0, KeyToStem(key)).Found?)
  {
    OneStem(key);
    hide M.Resolved, M.Placed, Stateless.Statuses, Readings.End, Readings.EndDepth, Trie.Find, Trie.Valid;
    Readings.StatusByteNamesTheEnd(t, [KeyToStem(key)], 0);
  }

  lemma OneStem(key: Key)
    ensures ProofPlan.Stems([key]) == [KeyToStem(key)]
  {
    assert [key][..0] == [];
  }

  /** The tree of one leaf: its leaf sits right below the root, and the status byte is ten. */
  lemma StatusOfSingleLeaf(leaf: RawLeaf)
    requires |leaf| == KEY_SIZE && M.Placed(M.Resolved(TrieRuns.Run(Writes([leaf]))), [])
    ensures RoundTrip.ProofOf(M.Resolved(TrieRuns.Run(Writes([leaf]))), [leaf], [Nil]).extStatus == [10]
  {
    hide M.Resolved, M.Placed, TrieRuns.Run, Trie.Find, Readings.End, Readings.EndDepth, RoundTrip.ProofOf;
    assert LeafKey(leaf) == leaf;
    SingleLeafTree(leaf);
    StatusOfOneKey(TrieRuns.Run(Writes([leaf])), leaf);
  }

  lemma SingleLeafTree(leaf: RawLeaf)
    requires |leaf| == KEY_SIZE
    ensures var t, stem := TrieRuns.Run(Writes([leaf])), KeyToStem(LeafKey(leaf));
            && t.Node? && |t.children| == NODE_WIDTH && t.children[stem[0]].Leaf? && t.children[stem[0]].stem == stem
            && Readings.EndDepth(t, 0, stem) == 1 && Readings.End(t, 0, stem) == t.children[stem[0]]
  {
    var key, ws := LeafKey(leaf), Writes([leaf]);
    var stem := KeyToStem(key);
    assert ws[..0] == [] && stem[..0] == [] && TrieRuns.Run([]) == Trie.New();
    var t := TrieRuns.Run(ws);
    PathStep(stem, 0);
    assert t == Trie.Insert(Trie.New(), 0, stem, Trie.Single(key, Bytes(leaf)));
    assert t.children[stem[0]] == Trie.Leaf(stem, Trie.Single(key, Bytes(leaf)));
  }

  class VerkleTree {
    var root: InternalNode?
    var data: seq<RawLeaf>

    constructor ()
      ensures root == null && data == []
    {
      root, data := null, [];
    }

    method Build(leaves: seq<RawLeaf>, numCPU: nat) returns (err: bool)
      requires numCPU > 0
      modifies this
      ensures err <==> !AllKeySized(leaves)
      ensures err ==> data == old(data)
      ensures !err ==> data == leaves && root != null && fresh(root) && fresh(root.nodes) && fresh(root.leaves)
      ensures !err ==> root.Shape() && root.Synced() && root.Ready() && root.cow == map[] && root.depth == 0
      ensures !err ==> root.view == TrieRuns.Run(Writes(leaves)) && root.commitment == Trie.Commitment(root.view)
    {
      hide InternalNode.Shape, InternalNode.Synced, InternalNode.Ready, Trie.Insert;
      var r := new InternalNode(0);
      root := r;
      var i := 0;
      while i < |leaves|
        invariant 0 <= i <= |leaves| && root == r && data == old(data) && AllKeySized(leaves[..i])
        invariant r.Shape() && r.Synced() && r.Ready() && r.depth == 0
        invariant fresh(r.nodes) && fresh(r.leaves) && r in r.nodes
        invariant r.view == TrieRuns.Run(Writes(leaves[..i]))
      {
        var leaf := leaves[i];
        var key := LeafKey(leaf);
        assert KeyToStem(key)[..0] == [];
        err := r.Insert(key, Bytes(leaf));
        if err {
          return;
        }
        WritesGrow(leaves, i);
        i := i + 1;
      }
      assert leaves[..i] == leaves;
      data := leaves;
      var c := Commits.CommitRoot(r, numCPU, []);
      err := false;
    }

    /** Build succeeded and nothing was changed since. */
    ghost predicate Built()
      reads this
      reads if root != null then root.nodes else {}
      reads if root != null then root.leaves else {}
      reads if root != null then {root} else {}
    {
      && root != null && root.Shape() && root.Synced() && root.Ready() && root.cow == map[]
      && AllKeySized(data) && root.view == TrieRuns.Run(Writes(data))
    }

    /** GetProof: the serialized proof for one leaf, always made. */
    method GetProof(codec: Wire.PointCodec, targetIndex: nat) returns (vp: Wire.VerkleProof, diff: seq<Wire.StemDiff>, ok: bool)
      requires Built() && targetIndex < |data|
      ensures ok && M.Placed(M.Resolved(root.view), [])
      ensures var p := RoundTrip.ProofOf(M.Resolved(root.view), [LeafKey(data[targetIndex])], [Nil]);
              && vp == Wire.VerkleProof(p.poaStems, p.extStatus, Wire.EncodeAll(codec, p.cs))
              && Wire.Fits(p.preValues) && diff == Wire.ToDiff(p.keys, p.preValues, p.postValues)
      ensures |vp.depthExtensionPresent| == 1 && vp.depthExtensionPresent[0] % 4 == 2
    {
      hide InternalNode.Shape, InternalNode.Synced, InternalNode.Ready, M.Resolved, M.Placed, TrieRuns.Run, RoundTrip.ProofOf;
      hide Built, Extraction.Short, Extraction.Answerable, Proofs.PostReadable, Proofs.PostValues, Trie.Valid, Wire.ToDiff;
      BuiltFacts(this);
      var keys: M.Keys := [LeafKey(data[targetIndex])];
      var proof, pe, err := Proofs.MakeVerkleMultiProof(Snapshot.NodeOf(root), Proofs.NoTree, keys);
      OneKey(keys, proof.keys);
      Proofs.SucceedsOnShort(root.view, keys);
      assert seq(|keys|, _ => Nil) == [Nil];
      LeafProofFits(this, keys[0]);
      LeafProofStatus(this, targetIndex);
      var panics;
      vp, diff, panics := Wire.SerializeProof(codec, proof);
      ok := !err && !panics;
    }
  }

  lemma LeafProofStatus(v: VerkleTree, i: nat)
    requires v.Built() && i < |v.data| && M.Placed(M.Resolved(v.root.view), [])
    ensures var es := RoundTrip.ProofOf(M.Resolved(v.root.view), [LeafKey(v.data[i])], [Nil]).extStatus; |es| == 1 && es[0] % 4 == 2
  {
    var key := LeafKey(v.data[i]);
    assert key == v.data[i] && key in v.data;
    hide M.Resolved, M.Placed, TrieRuns.Run, RoundTrip.ProofOf, InternalNode.Shape, InternalNode.Synced, InternalNode.Ready;
    StatusTellsMembership(v.data, key);
  }

  lemma LeafProofFits(v: VerkleTree, key: Key)
    requires v.Built() && M.Placed(M.Resolved(v.root.view), [])
    ensures var p := RoundTrip.ProofOf(M.Resolved(v.root.view), [key], [Nil]);
            && |p.keys| == |p.preValues| == |p.postValues| && Wire.Fits(p.preValues) && Wire.Fits(p.postValues)
  {
    MembershipProof(v.data, key);
  }

  lemma BuiltFacts(v: VerkleTree)
    requires v.Built()
    ensures v.root != null && v.root.Shape() && v.root.view.Node? && Trie.Valid(v.root.view, [])
    ensures Snapshot.NodeOf(v.root) == M.Resolved(v.root.view) && M.Placed(M.Resolved(v.root.view), [])
    ensures Extraction.Short(v.root.view)
  {
    hide InternalNode.Shape, InternalNode.Synced, InternalNode.Ready;
    Snapshot.CommittedIsResolved(v.root);
    M.ResolvedIsPlaced(v.root.view, []);
    Snapshot.SyncedIsShort(v.root);
  }

  lemma OneKey(a: M.Keys, b: M.Keys)
    requires |a| == 1 && multiset(b) == multiset(a)
    ensures a == b
  {
    assert |b| == |multiset(b)| == 1;
    assert b[0] in multiset(b);
  }
}
