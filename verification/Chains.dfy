/** Which openings a proof holds, key by key: the chain from the root to the value, or to where the walk
    ends.  A proof for many keys is the union of the chains of each. */
module Chains {
  import opened Pedersen
  import opened VerkleTypes
  import opened ByteOrder
  import opened Multiproof
  import Trie

  // ----- What one key needs ----------------------------------------------

  /** The points at which the walk of `key` opens commitments.  An internal node: its child's index.  A leaf:
      the marker and the stem; for its own stem also the half, and in the half the two places of the value. */
  ghost predicate KeyOpens(n: Node, path: Path, key: Key, owner: Path, z: nat)
    decreases n
  {
    match n
    case Empty => false
    case Unknown => false
    case Stub(_, _) => owner == path && z <= 1
    case Leaf(stem, _, _, _, _) =>
      var half := 2 + key[31] / 128;
      || (owner == path && z <= 1)
      || (key[..31] == stem && owner == path && z == half)
      || (key[..31] == stem && owner == path + [half] && 2 * (key[31] % 128) <= z <= 2 * (key[31] % 128) + 1)
    case Internal(children, _) =>
      && |path| < STEM_SIZE && |children| == NODE_WIDTH
      && var i := key[|path|];
         (owner == path && z == i) || KeyOpens(children[i], path + [i], key, owner, z)
  }

  ghost predicate SomeKeyOpens(n: Node, path: Path, ks: Keys, o: Opening) {
    exists k :: k in ks && HasPrefix(k, path) && KeyOpens(n, path, k, o.owner, o.z)
  }

  // ----- Leaves ----------------------------------------------------------

  lemma {:induction false} SlotsClaimed(stem: Stem, values: Values, c1: Point, c2: Point, path: Path, ks: Keys, o: Opening)
    ensures Claimed(SlotOpenings(stem, values, c1, c2, path, ks), o)
       <==> exists k :: k in ks && KeyToStem(k) == stem && Claimed(SlotPair(values, c1, c2, path, Suffix(k)), o)
  {
    if ks != [] {
      var init, last := ks[..|ks| - 1], ks[|ks| - 1];
      SlotsClaimed(stem, values, c1, c2, path, init, o);
      hide SlotPair;
      assert ks == init + [last];
      assert forall k :: k in ks <==> k in init || k == last;
      ClaimedConcat(SlotOpenings(stem, values, c1, c2, path, init), SlotPair(values, c1, c2, path, Suffix(last)), o);
      NotClaimed(o);
      assert SlotOpenings(stem, values, c1, c2, path, init) + [] == SlotOpenings(stem, values, c1, c2, path, init);
    }
  }

  lemma NotClaimed(o: Opening)
    ensures !Claimed([], o)
  {
  }

  lemma ClaimedConcat(a: seq<Opening>, b: seq<Opening>, o: Opening)
    ensures Claimed(a + b, o) <==> Claimed(a, o) || Claimed(b, o)
  {
    hide SameClaim;
    if Claimed(a, o) {
      var i :| 0 <= i < |a| && SameClaim(a[i], o);
      assert SameClaim((a + b)[i], o);
    }
    if Claimed(b, o) {
      var i :| 0 <= i < |b| && SameClaim(b[i], o);
      assert SameClaim((a + b)[|a| + i], o);
    }
  }

  lemma PairClaimed(values: Values, c1: Point, c2: Point, path: Path, suffix: byte, o: Opening)
    ensures Claimed(SlotPair(values, c1, c2, path, suffix), o)
       <==> o.owner == path + [2 + suffix / 128] && 2 * (suffix % 128) <= o.z <= 2 * (suffix % 128) + 1
  {
    var pair, m := SlotPair(values, c1, c2, path, suffix), suffix % 128;
    assert SlotIndex(suffix) == 2 * m by {
      assert suffix == m || suffix == m + 128;
    }
    assert |pair| == 2 && pair[0].z == 2 * m && pair[1].z == 2 * m + 1;
    hide SlotPair, SlotIndex;
    if o.owner == path + [2 + suffix / 128] && 2 * m <= o.z <= 2 * m + 1 {
      assert SameClaim(pair[o.z - 2 * m], o);
    }
  }

  lemma ExtensionClaimed(stem: Stem, comm: Point, c1: Point, c2: Point, path: Path, ks: Keys, o: Opening)
    ensures Claimed(ExtensionOpenings(stem, comm, c1, c2, path, ks), o)
       <==> o.owner == path && (o.z <= 1 || (o.z == 2 && RequestedHalf(ks, stem, 0)) || (o.z == 3 && RequestedHalf(ks, stem, 128)))
  {
    var f := LeafPoly(stem, c1, c2);
    var two := [Opening(path, comm, 0, f[0], f), Opening(path, comm, 1, f[1], f)];
    var first := if RequestedHalf(ks, stem, 0) then [Opening(path, comm, 2, f[2], f)] else [];
    var second := if RequestedHalf(ks, stem, 128) then [Opening(path, comm, 3, f[3], f)] else [];
    hide LeafPoly, RequestedHalf;
    ClaimedConcat(two, first, o);
    ClaimedConcat(two + first, second, o);
    assert Claimed(two, o) <==> o.owner == path && o.z <= 1 by {
      assert SameClaim(two[0], o) || SameClaim(two[1], o) <==> o.owner == path && o.z <= 1;
    }
    OneClaim(first, o);
    OneClaim(second, o);
  }

  lemma OneClaim(ops: seq<Opening>, o: Opening)
    requires |ops| <= 1
    ensures Claimed(ops, o) <==> |ops| == 1 && SameClaim(ops[0], o)
  {
  }

  lemma HalfRequested(ks: Keys, path: Path, stem: Stem)
    ensures RequestedHalf(Under(ks, path), stem, 0) <==> exists k :: k in ks && HasPrefix(k, path) && k[..31] == stem && 2 + k[31] / 128 == 2
    ensures RequestedHalf(Under(ks, path), stem, 128) <==> exists k :: k in ks && HasPrefix(k, path) && k[..31] == stem && 2 + k[31] / 128 == 3
  {
    var under := Under(ks, path);
    assert forall k :: k in under <==> k in ks && HasPrefix(k, path);
    hide Under, HasPrefix;
    if RequestedHalf(under, stem, 0) {
      var k :| k in under && KeyToStem(k) == stem && 0 <= Suffix(k) < 128;
      assert k in ks && k[31] / 128 == 0;
    }
    if RequestedHalf(under, stem, 128) {
      var k :| k in under && KeyToStem(k) == stem && 128 <= Suffix(k) < 256;
      assert k in ks && k[31] / 128 == 1;
    }
  }

  lemma LeafOpensAtPath(n: Node, path: Path, ks: Keys, o: Opening)
    requires n.Leaf? && Touched(ks, path) && o.owner == path
    ensures SomeKeyOpens(n, path, ks, o)
       <==> o.z <= 1 || (o.z == 2 && RequestedHalf(Under(ks, path), n.stem, 0)) || (o.z == 3 && RequestedHalf(Under(ks, path), n.stem, 128))
  {
    HalfRequested(ks, path, n.stem);
    hide RequestedHalf, HasPrefix;
    assert forall k: Key :: KeyOpens(n, path, k, o.owner, o.z) <==> o.z <= 1 || (k[..31] == n.stem && o.z == 2 + k[31] / 128);
    if o.z <= 1 {
      var k: Key :| k in ks && HasPrefix(k, path);
    }
  }

  lemma LeafOpensInHalf(n: Node, path: Path, ks: Keys, o: Opening)
    requires n.Leaf? && o.owner != path
    ensures SomeKeyOpens(n, path, ks, o)
       <==> exists k :: k in Under(ks, path) && KeyToStem(k) == n.stem && Claimed(SlotPair(n.values, n.c1, n.c2, path, Suffix(k)), o)
  {
    forall k: Key ensures KeyOpens(n, path, k, o.owner, o.z)
      <==> KeyToStem(k) == n.stem && Claimed(SlotPair(n.values, n.c1, n.c2, path, Suffix(k)), o)
    {
      PairClaimed(n.values, n.c1, n.c2, path, Suffix(k), o);
    }
    hide KeyOpens, SlotPair, Claimed, HasPrefix;
  }

  lemma LeafClaimed(n: Node, path: Path, ks: Keys, o: Opening)
    requires n.Leaf? && Placed(n, path) && Touched(ks, path)
    ensures Claimed(Openings(n, path, ks), o) <==> SomeKeyOpens(n, path, ks, o)
  {
    var Leaf(stem, values, comm, c1, c2) := n;
    var under := Under(ks, path);
    ClaimedConcat(ExtensionOpenings(stem, comm, c1, c2, path, under), SlotOpenings(stem, values, c1, c2, path, under), o);
    ExtensionClaimed(stem, comm, c1, c2, path, under, o);
    SlotsClaimed(stem, values, c1, c2, path, under, o);
    if o.owner == path {
      LeafOpensAtPath(n, path, ks, o);
      SlotsAreBelow(stem, values, c1, c2, path, under, o);
    } else {
      LeafOpensInHalf(n, path, ks, o);
    }
    hide Under, HasPrefix, ExtensionOpenings, SlotOpenings, RequestedHalf, Claimed, SlotPair, KeyOpens, SomeKeyOpens;
  }

  lemma SlotsAreBelow(stem: Stem, values: Values, c1: Point, c2: Point, path: Path, ks: Keys, o: Opening)
    requires o.owner == path
    ensures !Claimed(SlotOpenings(stem, values, c1, c2, path, ks), o)
  {
    SlotsClaimed(stem, values, c1, c2, path, ks, o);
    forall k: Key ensures !Claimed(SlotPair(values, c1, c2, path, Suffix(k)), o) {
      PairClaimed(values, c1, c2, path, Suffix(k), o);
    }
    hide SlotPair, Claimed;
  }

  // ----- Internal nodes --------------------------------------------------

  lemma {:induction false} OwnClaimed(children: seq<Node>, comm: Point, path: Path, ks: Keys, i: nat, o: Opening)
    requires i <= |children| == NODE_WIDTH
    ensures Claimed(OwnOpenings(children, comm, path, ks, i), o) <==> o.owner == path && o.z < i && Touched(ks, path + [o.z])
  {
    if i > 0 {
      OwnClaimed(children, comm, path, ks, i - 1, o);
      var here := if Touched(ks, path + [i - 1]) then [Opening(path, comm, i - 1, Scalars(children)[i - 1], Scalars(children))] else [];
      hide Scalars, Touched, Claimed;
      ClaimedConcat(OwnOpenings(children, comm, path, ks, i - 1), here, o);
      OneClaim(here, o);
    }
  }

  /** Some key goes through child `j` and opens there. */
  ghost predicate OpensBelow(n: Node, path: Path, ks: Keys, j: nat, o: Opening)
    requires n.Internal? && |n.children| == NODE_WIDTH && j < NODE_WIDTH
  {
    SomeKeyOpens(n.children[j], path + [j], ks, o)
  }

  lemma {:induction false} MergedClaimed(n: Node, path: Path, ks: Keys, i: nat, o: Opening)
    requires n.Internal? && Placed(n, path) && i <= NODE_WIDTH
    ensures Claimed(MergedBelow(n, path, ks, i), o)
       <==> (o.owner == path && Touched(ks, path + [o.z])) || exists j :: 0 <= j < i && OpensBelow(n, path, ks, j, o)
    decreases n, i
  {
    hide Claimed, Touched, OwnOpenings, SomeKeyOpens;
    if i == 0 {
      OwnClaimed(n.children, n.comm, path, ks, NODE_WIDTH, o);
    } else {
      var c, q := n.children[i - 1], path + [i - 1];
      MergedClaimed(n, path, ks, i - 1, o);
      assert OpensBelow(n, path, ks, i - 1, o) <==> SomeKeyOpens(c, q, ks, o);
      assert (exists j :: 0 <= j < i && OpensBelow(n, path, ks, j, o))
        <==> (exists j :: 0 <= j < i - 1 && OpensBelow(n, path, ks, j, o)) || OpensBelow(n, path, ks, i - 1, o);
      if Touched(ks, q) {
        MergeKeepsClaims(MergedBelow(n, path, ks, i - 1), Openings(c, q, ks), o);
        OpeningsAreUnion(c, q, ks, o);
      } else {
        UntouchedOpensNothing(c, q, ks, o);
      }
    }
  }

  lemma UntouchedOpensNothing(n: Node, path: Path, ks: Keys, o: Opening)
    requires !Touched(ks, path)
    ensures !SomeKeyOpens(n, path, ks, o)
  {
  }

  /** The keys of a node are those of its children. */
  lemma KeysBelow(n: Node, path: Path, ks: Keys, o: Opening)
    requires n.Internal? && Placed(n, path)
    ensures SomeKeyOpens(n, path, ks, o)
       <==> (o.owner == path && Touched(ks, path + [o.z])) || exists j :: 0 <= j < NODE_WIDTH && OpensBelow(n, path, ks, j, o)
  {
    var d := |path|;
    forall k: Key ensures HasPrefix(k, path + [k[d]]) <==> HasPrefix(k, path)
      ensures forall j: byte :: HasPrefix(k, path + [j]) <==> HasPrefix(k, path) && k[d] == j
    {
      assert k[..d + 1] == k[..d] + [k[d]];
    }
    assert forall i :: 0 <= i < NODE_WIDTH ==> Placed(n.children[i], path + [i]);
    if SomeKeyOpens(n, path, ks, o) {
      var k: Key :| k in ks && HasPrefix(k, path) && KeyOpens(n, path, k, o.owner, o.z);
      var j := k[d];
      if o.owner == path && o.z == j {
        assert HasPrefix(k, path + [o.z]);
      } else {
        assert KeyOpens(n.children[j], path + [j], k, o.owner, o.z);
        assert OpensBelow(n, path, ks, j, o);
      }
    }
    if o.owner == path && Touched(ks, path + [o.z]) {
      var k: Key :| k in ks && HasPrefix(k, path + [o.z]);
      assert HasPrefix(k, path) && KeyOpens(n, path, k, o.owner, o.z);
    }
    if exists j :: 0 <= j < NODE_WIDTH && OpensBelow(n, path, ks, j, o) {
      var j: byte :| OpensBelow(n, path, ks, j, o);
      var k: Key :| k in ks && HasPrefix(k, path + [j]) && KeyOpens(n.children[j], path + [j], k, o.owner, o.z);
      assert HasPrefix(k, path) && KeyOpens(n, path, k, o.owner, o.z);
    }
  }

  /** A proof opens what its keys need, each taken by itself, and nothing else. */
  lemma {:induction false} OpeningsAreUnion(n: Node, path: Path, ks: Keys, o: Opening)
    requires Placed(n, path) && Touched(ks, path)
    ensures Claimed(Openings(n, path, ks), o) <==> SomeKeyOpens(n, path, ks, o)
    decreases n, NODE_WIDTH + 1
  {
    match n
    case Empty => NotClaimed(o);
    case Unknown => NotClaimed(o);
    case Leaf(_, _, _, _, _) => LeafClaimed(n, path, ks, o);
    case Stub(stem, comm) => StubClaimed(n, path, ks, o);
    case Internal(_, _) =>
      MergedClaimed(n, path, ks, NODE_WIDTH, o);
      KeysBelow(n, path, ks, o);
  }

  lemma StubClaimed(n: Node, path: Path, ks: Keys, o: Opening)
    requires n.Stub? && Placed(n, path) && Touched(ks, path)
    ensures Claimed(Openings(n, path, ks), o) <==> SomeKeyOpens(n, path, ks, o)
  {
    ExtensionClaimed(n.stem, n.comm, IDENTITY, IDENTITY, path, [], o);
    hide ExtensionOpenings, Claimed;
    var k: Key :| k in ks && HasPrefix(k, path);
  }

  // ----- What is opened is what the tree holds ------------------------------

  datatype Source = NoSource | From(point: Point, poly: Poly)

  /** The commitment that sits at a place of the tree, and the polynomial it commits to. The halves of a leaf
      have the bytes 2 and 3 after the leaf's own place. */
  function SourceAt(t: Trie.Tree, place: Path): Source
    decreases t
  {
    match t
    case Empty => NoSource
    case Leaf(stem, vs) =>
      if place == [] then From(LeafCommitment(stem, vs), LeafPoly(stem, C1(vs), C2(vs)))
      else if place == [2] then From(C1(vs), SuffixPoly(vs, 0))
      else if place == [3] then From(C2(vs), SuffixPoly(vs, 128))
      else NoSource
    case Node(children) =>
      if place == [] then From(Trie.Commitment(t), Trie.ChildScalars(children))
      else if |children| == NODE_WIDTH then SourceAt(children[place[0]], place[1..])
      else NoSource
  }

  ghost predicate SaysTheTree(t: Trie.Tree, path: Path, o: Opening) {
    HasPrefix(o.owner, path) && SourceAt(t, o.owner[|path|..]) == From(o.c, o.f) && |o.f| == NODE_WIDTH && o.y == o.f[o.z]
  }

  ghost predicate AllSayTheTree(t: Trie.Tree, path: Path, ops: seq<Opening>) {
    forall i :: 0 <= i < |ops| ==> SaysTheTree(t, path, ops[i])
  }

  lemma {:induction false} MergedSay(t: Trie.Tree, path: Path, a: seq<Opening>, b: seq<Opening>)
    requires AllSayTheTree(t, path, a) && AllSayTheTree(t, path, b)
    ensures AllSayTheTree(t, path, MergeOps(a, b))
    decreases |b|
  {
    if b != [] {
      MergedSay(t, path, a, b[..|b| - 1]);
      hide SaysTheTree;
    }
  }

  lemma ConcatSay(t: Trie.Tree, path: Path, a: seq<Opening>, b: seq<Opening>)
    requires AllSayTheTree(t, path, a) && AllSayTheTree(t, path, b)
    ensures AllSayTheTree(t, path, a + b)
  {
    hide SaysTheTree;
  }

  lemma {:induction false} SlotsSay(t: Trie.Tree, path: Path, ks: Keys)
    requires t.Leaf?
    ensures AllSayTheTree(t, path, SlotOpenings(t.stem, t.values, C1(t.values), C2(t.values), path, ks))
  {
    if ks != [] {
      var init, k := ks[..|ks| - 1], ks[|ks| - 1];
      SlotsSay(t, path, init);
      PairSays(t, path, Suffix(k));
      hide SlotPair, AllSayTheTree;
      var before := SlotOpenings(t.stem, t.values, C1(t.values), C2(t.values), path, init);
      ConcatSay(t, path, before, SlotPair(t.values, C1(t.values), C2(t.values), path, Suffix(k)));
      assert before + [] == before;
    }
  }

  lemma PairSays(t: Trie.Tree, path: Path, suffix: byte)
    requires t.Leaf?
    ensures AllSayTheTree(t, path, SlotPair(t.values, C1(t.values), C2(t.values), path, suffix))
  {
    hide SuffixPoly, C1, C2;
    var owner := path + [2 + suffix / 128];
    assert owner[..|path|] == path && owner[|path|..] == [2 + suffix / 128];
    assert suffix < 128 ==> suffix / 128 == 0;
    assert suffix >= 128 ==> suffix / 128 == 1;
  }

  lemma ExtensionSays(t: Trie.Tree, path: Path, ks: Keys)
    requires t.Leaf?
    ensures AllSayTheTree(t, path, ExtensionOpenings(t.stem, LeafCommitment(t.stem, t.values), C1(t.values), C2(t.values), path, ks))
  {
    hide LeafPoly, C1, C2, RequestedHalf, LeafCommitment;
    assert path[..|path|] == path && path[|path|..] == [];
  }

  lemma OwnSay(t: Trie.Tree, path: Path, ks: Keys)
    requires t.Node? && Trie.Valid(t, path)
    ensures AllSayTheTree(t, path, OwnOpenings(Resolved(t).children, Resolved(t).comm, path, ks, NODE_WIDTH))
  {
    var n := Resolved(t);
    forall j | 0 <= j < NODE_WIDTH ensures Scalars(n.children)[j] == Trie.ChildScalars(t.children)[j] {
      ResolvedComm(t.children[j]);
    }
    assert Scalars(n.children) == Trie.ChildScalars(t.children);
    OwnShape(n.children, n.comm, path, ks, NODE_WIDTH);
    assert path[..|path|] == path && path[|path|..] == [];
    hide Scalars, OwnOpenings, Resolved;
  }

  lemma {:induction false} OwnShape(children: seq<Node>, comm: Point, path: Path, ks: Keys, i: nat)
    requires i <= |children| == NODE_WIDTH
    ensures forall o :: o in OwnOpenings(children, comm, path, ks, i) ==>
      o.owner == path && o.c == comm && o.f == Scalars(children) && o.y == o.f[o.z]
  {
    if i > 0 {
      OwnShape(children, comm, path, ks, i - 1);
    }
  }

  lemma ChildSays(t: Trie.Tree, path: Path, i: byte, ops: seq<Opening>)
    requires t.Node? && |t.children| == NODE_WIDTH && AllSayTheTree(t.children[i], path + [i], ops)
    ensures AllSayTheTree(t, path, ops)
  {
    forall j | 0 <= j < |ops| ensures SaysTheTree(t, path, ops[j]) {
      var o := ops[j].owner;
      assert SaysTheTree(t.children[i], path + [i], ops[j]);
      assert o[..|path| + 1] == path + [i];
      assert o[..|path|] == path && o[|path|..][0] == i && o[|path|..][1..] == o[|path| + 1..];
    }
  }

  /** Every opening of a committed tree is about the commitment at its place, and true of the polynomial
      behind it. */
  lemma {:induction false} OpeningsSayTheTree(t: Trie.Tree, path: Path, ks: Keys)
    requires Trie.Valid(t, path) && Placed(Resolved(t), path)
    ensures AllSayTheTree(t, path, Openings(Resolved(t), path, ks))
    decreases t, NODE_WIDTH + 1
  {
    match t
    case Empty =>
    case Leaf(stem, vs) =>
      var under := Under(ks, path);
      ExtensionSays(t, path, under);
      SlotsSay(t, path, under);
      ConcatSay(t, path, ExtensionOpenings(stem, LeafCommitment(stem, vs), C1(vs), C2(vs), path, under),
                SlotOpenings(stem, vs, C1(vs), C2(vs), path, under));
    case Node(children) => MergedSayTheTree(t, path, ks, NODE_WIDTH);
  }

  lemma {:induction false} MergedSayTheTree(t: Trie.Tree, path: Path, ks: Keys, i: nat)
    requires t.Node? && Trie.Valid(t, path) && Placed(Resolved(t), path) && i <= NODE_WIDTH
    ensures AllSayTheTree(t, path, MergedBelow(Resolved(t), path, ks, i))
    decreases t, i
  {
    if i == 0 {
      OwnSay(t, path, ks);
    } else {
      var q := path + [i - 1];
      MergedSayTheTree(t, path, ks, i - 1);
      if Touched(ks, q) {
        OpeningsSayTheTree(t.children[i - 1], q, ks);
        hide AllSayTheTree, Touched;
        ChildSays(t, path, i - 1, Openings(Resolved(t.children[i - 1]), q, ks));
        MergedSay(t, path, MergedBelow(Resolved(t), path, ks, i - 1), Openings(Resolved(t.children[i - 1]), q, ks));
      }
    }
  }
}
