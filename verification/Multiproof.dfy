/** What a multiproof is made of: openings, commitments by path, extension statuses, absence
    stems and values, as functions of the tree and the sorted keys. */
module Multiproof {
  import opened Pedersen
  import opened VerkleTypes
  import opened ByteOrder
  import Trie

  /** A tree as prover and verifier walk it: fully resolved, or rebuilt from a proof with unknown
      subtrees and proof-of-absence stubs. */
  datatype Node =
    | Empty
    | Unknown
    | Leaf(stem: Stem, values: Values, comm: Point, c1: Point, c2: Point)
    | Stub(stem: Stem, comm: Point)
    | Internal(children: seq<Node>, comm: Point)

  function Comm(n: Node): Point {
    if n.Empty? || n.Unknown? then IDENTITY else n.comm
  }

  /** The committed tree as the prover sees it. */
  function Resolved(t: Trie.Tree): Node {
    match t
    case Empty => Empty
    case Leaf(stem, vs) => Leaf(stem, vs, LeafCommitment(stem, vs), C1(vs), C2(vs))
    case Node(children) => Internal(seq(|children|, i requires 0 <= i < |children| => Resolved(children[i])), Trie.Commitment(t))
  }

  lemma ResolvedComm(t: Trie.Tree)
    ensures Comm(Resolved(t)) == Trie.Commitment(t)
  {
  }

  /** Leaves and stubs sit on their own path; internal nodes have all their slots. */
  ghost predicate Placed(n: Node, path: Path) {
    match n
    case Empty => true
    case Unknown => true
    case Leaf(stem, _, _, _, _) => Trie.Extends(stem, path)
    case Stub(stem, _) => Trie.Extends(stem, path)
    case Internal(children, _) =>
      |path| < STEM_SIZE && |children| == NODE_WIDTH && forall i :: 0 <= i < NODE_WIDTH ==> Placed(children[i], path + [i])
  }

  lemma {:induction false} ResolvedIsPlaced(t: Trie.Tree, path: Path)
    requires Trie.Valid(t, path)
    ensures Placed(Resolved(t), path)
    decreases t
  {
    if t.Node? {
      forall i | 0 <= i < NODE_WIDTH ensures Placed(Resolved(t).children[i], path + [i]) {
        ResolvedIsPlaced(t.children[i], path + [i]);
      }
    }
  }

  // ----- Keys under a path -----------------------------------------------

  type Keys = seq<Key>

  ghost predicate SortedKeys(ks: Keys) {
    forall i, j :: 0 <= i < j < |ks| ==> !Less(ks[j], ks[i])
  }

  /** The keys with the given prefix, in order. */
  function Under(ks: Keys, path: Path): (r: Keys)
    ensures forall k :: k in r <==> k in ks && HasPrefix(k, path)
  {
    if ks == [] then []
    else
      var last := ks[|ks| - 1];
      Under(ks[..|ks| - 1], path) + if HasPrefix(last, path) then [last] else []
  }

  predicate Touched(ks: Keys, path: Path) {
    exists k :: k in ks && HasPrefix(k, path)
  }

  predicate Requested(ks: Keys, stem: Stem) {
    exists k :: k in ks && KeyToStem(k) == stem
  }

  /** Some key of the stem falls in the half beginning at `first`. */
  predicate RequestedHalf(ks: Keys, stem: Stem, first: nat) {
    exists k :: k in ks && KeyToStem(k) == stem && first <= Suffix(k) < first + 128
  }

  // ----- Openings --------------------------------------------------------

  /** One claim: the commitment held by the object at `owner` opens at z to y.  `owner` is the
      pointer the source compares, `f` the polynomial behind the commitment. */
  datatype Opening = Opening(owner: Path, c: Point, z: byte, y: Scalar, f: Poly)

  predicate SameClaim(a: Opening, b: Opening) {
    a.owner == b.owner && a.z == b.z
  }

  predicate Claimed(ops: seq<Opening>, o: Opening) {
    exists i :: 0 <= i < |ops| && SameClaim(ops[i], o)
  }

  /** ProofElements.Merge on the four parallel lists. */
  function MergeOps(a: seq<Opening>, b: seq<Opening>): seq<Opening>
    decreases |b|
  {
    if b == [] then a
    else
      var init, o := b[..|b| - 1], b[|b| - 1];
      var merged := MergeOps(a, init);
      if Claimed(merged, o) then merged else merged + [o]
  }

  function Scalars(children: seq<Node>): (f: Poly)
    ensures |f| == |children| && forall i :: 0 <= i < |children| ==> f[i] == MapToScalarField(Comm(children[i]))
  {
    seq(|children|, i requires 0 <= i < |children| => MapToScalarField(Comm(children[i])))
  }

  /** One opening of the node's own commitment per child that a key leads to. */
  function OwnOpenings(children: seq<Node>, comm: Point, path: Path, ks: Keys, i: nat): seq<Opening>
    requires i <= |children| == NODE_WIDTH
  {
    if i == 0 then []
    else
      OwnOpenings(children, comm, path, ks, i - 1)
      + if Touched(ks, path + [i - 1]) then [Opening(path, comm, i - 1, Scalars(children)[i - 1], Scalars(children))] else []
  }

  /** The openings of the extension commitment. */
  function ExtensionOpenings(stem: Stem, comm: Point, c1: Point, c2: Point, path: Path, ks: Keys): seq<Opening> {
    var f := LeafPoly(stem, c1, c2);
    [Opening(path, comm, 0, f[0], f), Opening(path, comm, 1, f[1], f)]
    + (if RequestedHalf(ks, stem, 0) then [Opening(path, comm, 2, f[2], f)] else [])
    + (if RequestedHalf(ks, stem, 128) then [Opening(path, comm, 3, f[3], f)] else [])
  }

  /** Where the value of a suffix sits in its half: the byte 2 * suffix, wrapped around. */
  function SlotIndex(suffix: byte): byte {
    2 * suffix % 256
  }

  function Half(suffix: byte): nat {
    if suffix < 128 then 0 else 128
  }

  /** The two openings of a half commitment for one requested key. */
  function SlotPair(values: Values, c1: Point, c2: Point, path: Path, suffix: byte): seq<Opening> {
    var f := SuffixPoly(values, Half(suffix));
    var c := if suffix < 128 then c1 else c2;
    var z := SlotIndex(suffix);
    var owner := path + [2 + suffix / 128];
    [Opening(owner, c, z, f[z], f), Opening(owner, c, z + 1, f[z + 1], f)]
  }

  function SlotOpenings(stem: Stem, values: Values, c1: Point, c2: Point, path: Path, ks: Keys): seq<Opening> {
    if ks == [] then []
    else
      var k := ks[|ks| - 1];
      SlotOpenings(stem, values, c1, c2, path, ks[..|ks| - 1])
      + if KeyToStem(k) == stem then SlotPair(values, c1, c2, path, Suffix(k)) else []
  }

  /** The openings GetProofItems collects below a node a key leads to. */
  function Openings(n: Node, path: Path, ks: Keys): seq<Opening>
    requires Placed(n, path)
    decreases n, NODE_WIDTH + 1
  {
    match n
    case Empty => []
    case Unknown => []
    case Leaf(stem, values, comm, c1, c2) =>
      ExtensionOpenings(stem, comm, c1, c2, path, Under(ks, path)) + SlotOpenings(stem, values, c1, c2, path, Under(ks, path))
    case Stub(stem, comm) => ExtensionOpenings(stem, comm, IDENTITY, IDENTITY, path, [])
    case Internal(_, _) => MergedBelow(n, path, ks, NODE_WIDTH)
  }

  function MergedBelow(n: Node, path: Path, ks: Keys, i: nat): seq<Opening>
    requires n.Internal? && Placed(n, path) && i <= NODE_WIDTH
    decreases n, i
  {
    if i == 0 then OwnOpenings(n.children, n.comm, path, ks, NODE_WIDTH)
    else
      var before := MergedBelow(n, path, ks, i - 1);
      if Touched(ks, path + [i - 1]) then MergeOps(before, Openings(n.children[i - 1], path + [i - 1], ks)) else before
  }

  // ----- Every opening is honest -----------------------------------------

  predicate Honest(o: Opening) {
    |o.f| == NODE_WIDTH && o.c == Commit(o.f) && o.y == o.f[o.z]
  }

  ghost predicate AllHonest(ops: seq<Opening>) {
    forall i :: 0 <= i < |ops| ==> Honest(ops[i])
  }

  lemma {:induction false} MergeKeepsHonest(a: seq<Opening>, b: seq<Opening>)
    requires AllHonest(a) && AllHonest(b)
    ensures AllHonest(MergeOps(a, b))
    decreases |b|
  {
    if b != [] {
      MergeKeepsHonest(a, b[..|b| - 1]);
    }
  }

  lemma {:induction false} OwnAreHonest(children: seq<Node>, comm: Point, path: Path, ks: Keys, i: nat)
    requires i <= |children| == NODE_WIDTH && comm == Commit(Scalars(children))
    ensures AllHonest(OwnOpenings(children, comm, path, ks, i))
  {
    if i > 0 {
      OwnAreHonest(children, comm, path, ks, i - 1);
    }
  }

  lemma SlotPairIsHonest(values: Values, path: Path, suffix: byte)
    ensures AllHonest(SlotPair(values, C1(values), C2(values), path, suffix))
  {
  }

  lemma {:induction false} SlotsAreHonest(stem: Stem, values: Values, path: Path, ks: Keys)
    ensures AllHonest(SlotOpenings(stem, values, C1(values), C2(values), path, ks))
  {
    if ks != [] {
      SlotsAreHonest(stem, values, path, ks[..|ks| - 1]);
      SlotPairIsHonest(values, path, Suffix(ks[|ks| - 1]));
    }
  }

  /** On a committed tree every claim is true: C commits to f, and f at z is y. */
  lemma {:induction false} OpeningsAreHonest(t: Trie.Tree, path: Path, ks: Keys)
    requires Trie.Valid(t, path) && Placed(Resolved(t), path)
    ensures AllHonest(Openings(Resolved(t), path, ks))
    decreases t, NODE_WIDTH + 1
  {
    match t
    case Empty =>
    case Leaf(stem, vs) =>
      SlotsAreHonest(stem, vs, path, Under(ks, path));
    case Node(children) => MergedAreHonest(t, path, ks, NODE_WIDTH);
  }

  lemma {:induction false} MergedAreHonest(t: Trie.Tree, path: Path, ks: Keys, i: nat)
    requires t.Node? && Trie.Valid(t, path) && Placed(Resolved(t), path) && i <= NODE_WIDTH
    ensures AllHonest(MergedBelow(Resolved(t), path, ks, i))
    decreases t, i
  {
    var n := Resolved(t);
    if i == 0 {
      forall j | 0 <= j < NODE_WIDTH ensures Scalars(n.children)[j] == Trie.ChildScalars(t.children)[j] {
        ResolvedComm(t.children[j]);
      }
      assert Scalars(n.children) == Trie.ChildScalars(t.children);
      OwnAreHonest(n.children, n.comm, path, ks, NODE_WIDTH);
    } else {
      MergedAreHonest(t, path, ks, i - 1);
      OpeningsAreHonest(t.children[i - 1], path + [i - 1], ks);
      MergeKeepsHonest(MergedBelow(n, path, ks, i - 1), Openings(n.children[i - 1], path + [i - 1], ks));
    }
  }

  // ----- No claim occurs twice -------------------------------------------

  ghost predicate NoRepeats(ops: seq<Opening>) {
    forall i, j :: 0 <= i < j < |ops| ==> !SameClaim(ops[i], ops[j])
  }

  lemma {:induction false} MergeHasNoRepeats(a: seq<Opening>, b: seq<Opening>)
    requires NoRepeats(a)
    ensures NoRepeats(MergeOps(a, b))
    decreases |b|
  {
    if b != [] {
      MergeHasNoRepeats(a, b[..|b| - 1]);
    }
  }

  /** Merging drops repeated claims and nothing else. */
  lemma {:induction false} MergeKeepsClaims(a: seq<Opening>, b: seq<Opening>, o: Opening)
    ensures Claimed(MergeOps(a, b), o) <==> Claimed(a, o) || Claimed(b, o)
    decreases |b|
  {
    if b != [] {
      var init, last := b[..|b| - 1], b[|b| - 1];
      var merged := MergeOps(a, init);
      MergeKeepsClaims(a, init, o);
      ClaimedAppend(init, last, o);
      assert b == init + [last];
      ClaimedAppend(merged, last, o);
    }
  }

  lemma ClaimedAppend(ops: seq<Opening>, last: Opening, o: Opening)
    ensures Claimed(ops + [last], o) <==> Claimed(ops, o) || SameClaim(last, o)
  {
    var all := ops + [last];
    if Claimed(ops, o) {
      var i :| 0 <= i < |ops| && SameClaim(ops[i], o);
      assert SameClaim(all[i], o);
    }
    if SameClaim(last, o) {
      assert SameClaim(all[|ops|], o);
    }
  }

  lemma {:induction false} OwnHaveNoRepeats(children: seq<Node>, comm: Point, path: Path, ks: Keys, i: nat)
    requires i <= |children| == NODE_WIDTH
    ensures NoRepeats(OwnOpenings(children, comm, path, ks, i))
    ensures forall j :: 0 <= j < |OwnOpenings(children, comm, path, ks, i)| ==> OwnOpenings(children, comm, path, ks, i)[j].z < i
  {
    if i > 0 {
      OwnHaveNoRepeats(children, comm, path, ks, i - 1);
    }
  }

  /** The list an internal node hands up, in particular the root's, claims nothing twice. */
  lemma {:induction false} OpeningsHaveNoRepeats(n: Node, path: Path, ks: Keys, i: nat)
    requires n.Internal? && Placed(n, path) && i <= NODE_WIDTH
    ensures NoRepeats(MergedBelow(n, path, ks, i))
  {
    if i == 0 {
      OwnHaveNoRepeats(n.children, n.comm, path, ks, NODE_WIDTH);
    } else {
      OpeningsHaveNoRepeats(n, path, ks, i - 1);
      MergeHasNoRepeats(MergedBelow(n, path, ks, i - 1), Openings(n.children[i - 1], path + [i - 1], ks));
    }
  }
}
