/** What each list of a proof holds, said by the tree, the keys and nothing else. */
module Contents {
  import opened Pedersen
  import opened VerkleTypes
  import opened ByteOrder
  import opened Multiproof
  import opened ProofPlan
  import opened Chains
  import opened Readings
  import opened OpeningOrder
  import RoundTrip
  import Stateless
  import Trie

  // ----- Openings --------------------------------------------------------

  /** In order, true of the tree, and holding what the keys open and nothing else. */
  ghost predicate Fitting(t: Trie.Tree, ks: Keys, ops: seq<Opening>) {
    InOrder(ops) && AllSayTheTree(t, [], ops) && forall o: Opening :: Claimed(ops, o) <==> SomeKeyOpens(Resolved(t), [], ks, o)
  }

  lemma OpeningsFit(t: Trie.Tree, ks: Keys)
    requires t.Node? && Trie.Valid(t, []) && Placed(Resolved(t), []) && SortedKeys(ks) && ks != []
    ensures Fitting(t, ks, Openings(Resolved(t), [], ks))
  {
    RootTouched(ks);
    MergedInOrder(Resolved(t), [], ks, NODE_WIDTH);
    OpeningsSayTheTree(t, [], ks);
    hide Claimed, SomeKeyOpens, AllSayTheTree, InOrder, MergedBelow, Touched;
    forall o: Opening ensures Claimed(Openings(Resolved(t), [], ks), o) <==> SomeKeyOpens(Resolved(t), [], ks, o) {
      OpeningsAreUnion(Resolved(t), [], ks, o);
    }
  }

  /** There is one such list. */
  lemma FittingIsUnique(t: Trie.Tree, ks: Keys, a: seq<Opening>, b: seq<Opening>)
    requires Fitting(t, ks, a) && Fitting(t, ks, b)
    ensures a == b
  {
    FittingMembers(t, ks, a, b);
    FittingMembers(t, ks, b, a);
    hide Fitting, Claimed, SomeKeyOpens, AllSayTheTree;
    OrderDecides(a, b);
  }

  lemma FittingMembers(t: Trie.Tree, ks: Keys, a: seq<Opening>, b: seq<Opening>)
    requires Fitting(t, ks, a) && Fitting(t, ks, b)
    ensures InOrder(a) && forall o :: o in a ==> o in b
  {
    hide SomeKeyOpens, InOrder;
    forall o | o in a ensures o in b {
      var i :| 0 <= i < |a| && a[i] == o;
      ItselfClaimed(a, i);
      assert Claimed(b, o);
      var j :| 0 <= j < |b| && SameClaim(b[j], o);
      assert SaysTheTree(t, [], a[i]) && SaysTheTree(t, [], b[j]);
      assert b[j] == o;
    }
  }

  /** The openings of a proof are the one list that is in order, true of the tree, and holds what the keys open
      and nothing else. */
  lemma OneListOnly(t: Trie.Tree, ks: Keys, ops: seq<Opening>)
    requires t.Node? && Trie.Valid(t, []) && Placed(Resolved(t), []) && SortedKeys(ks) && ks != []
    ensures ops == Openings(Resolved(t), [], ks) <==> Fitting(t, ks, ops)
  {
    hide Fitting, Openings;
    OpeningsFit(t, ks);
    if Fitting(t, ks, ops) {
      FittingIsUnique(t, ks, ops, Openings(Resolved(t), [], ks));
    }
  }

  // ----- Commitments -----------------------------------------------------

  /** Some key opens the commitment at this place. */
  ghost predicate PlaceOpened(n: Node, path: Path, ks: Keys, p: Path) {
    exists k: Key, z: nat :: k in ks && HasPrefix(k, path) && KeyOpens(n, path, k, p, z)
  }

  ghost predicate Listed(ls: seq<Located>, p: Path) {
    exists j :: 0 <= j < |ls| && ls[j].path == p
  }

  lemma ListedConcat(a: seq<Located>, b: seq<Located>, p: Path)
    ensures Listed(a + b, p) <==> Listed(a, p) || Listed(b, p)
  {
    if Listed(a, p) {
      var j :| 0 <= j < |a| && a[j].path == p;
      assert (a + b)[j].path == p;
    }
    if Listed(b, p) {
      var j :| 0 <= j < |b| && b[j].path == p;
      assert (a + b)[|a| + j].path == p;
    }
  }

  lemma OneListed(l: Located, p: Path)
    ensures Listed([l], p) <==> l.path == p
    ensures !Listed([], p)
  {
    assert [l][0] == l;
  }

  lemma LeafPlaces(n: Node, path: Path, ks: Keys, p: Path)
    requires n.Leaf? && Placed(n, path) && Touched(ks, path)
    ensures PlaceOpened(n, path, ks, p)
       <==> p == path || (p == path + [2] && RequestedHalf(ks, n.stem, 0)) || (p == path + [3] && RequestedHalf(ks, n.stem, 128))
  {
    if p == path {
      var k: Key :| k in ks && HasPrefix(k, path);
      assert KeyOpens(n, path, k, p, 0);
    } else if PlaceOpened(n, path, ks, p) {
      var k: Key, z: nat :| k in ks && HasPrefix(k, path) && KeyOpens(n, path, k, p, z);
      assert KeyToStem(k) == n.stem && (k[31] < 128 ==> k[31] / 128 == 0) && (k[31] >= 128 ==> k[31] / 128 == 1);
    }
    HalfPlaceOpened(n, path, ks, 0);
    HalfPlaceOpened(n, path, ks, 128);
  }

  lemma HalfPlaceOpened(n: Node, path: Path, ks: Keys, first: byte)
    requires n.Leaf? && Placed(n, path) && (first == 0 || first == 128)
    ensures RequestedHalf(ks, n.stem, first) ==> PlaceOpened(n, path, ks, path + [2 + first / 128])
  {
    if RequestedHalf(ks, n.stem, first) {
      var k: Key :| k in ks && KeyToStem(k) == n.stem && first <= Suffix(k) < first + 128;
      assert k[..|path|] == n.stem[..|path|];
      assert k[31] / 128 == first / 128;
      assert KeyOpens(n, path, k, path + [2 + first / 128], 2 * (k[31] % 128));
    }
  }

  lemma LeafListed(n: Node, path: Path, ks: Keys, p: Path)
    requires n.Leaf? && Placed(n, path)
    ensures Listed(PathComms(n, path, ks), p)
       <==> p == path || (p == path + [2] && RequestedHalf(ks, n.stem, 0)) || (p == path + [3] && RequestedHalf(ks, n.stem, 128))
  {
    var top := [Located(path, n.comm)];
    var first := if RequestedHalf(ks, n.stem, 0) then [Located(path + [2], n.c1)] else [];
    var second := if RequestedHalf(ks, n.stem, 128) then [Located(path + [3], n.c2)] else [];
    hide RequestedHalf, Listed;
    OneListed(Located(path, n.comm), p);
    OneListed(Located(path + [2], n.c1), p);
    OneListed(Located(path + [3], n.c2), p);
    ListedConcat(top, first, p);
    ListedConcat(top + first, second, p);
  }

  ghost predicate PlaceBelow(n: Node, path: Path, ks: Keys, j: nat, p: Path)
    requires n.Internal? && |n.children| == NODE_WIDTH && j < NODE_WIDTH
  {
    PlaceOpened(n.children[j], path + [j], ks, p)
  }

  lemma {:induction false} BelowListed(n: Node, path: Path, ks: Keys, i: nat, p: Path)
    requires n.Internal? && Placed(n, path) && i <= NODE_WIDTH
    ensures Listed(CommsBelow(n, path, ks, i), p) <==> exists j :: 0 <= j < i && PlaceBelow(n, path, ks, j, p)
    decreases n, i
  {
    hide Listed, PlaceOpened, Touched;
    if i == 0 {
      OneListed(Located(path, 0), p);
    } else {
      var c, q, last := n.children[i - 1], path + [i - 1], i - 1;
      BelowListed(n, path, ks, last, p);
      assert PlaceBelow(n, path, ks, last, p) <==> PlaceOpened(c, q, ks, p);
      assert (exists j :: 0 <= j < i && PlaceBelow(n, path, ks, j, p))
        <==> (exists j :: 0 <= j < last && PlaceBelow(n, path, ks, j, p)) || PlaceBelow(n, path, ks, last, p);
      if Touched(ks, q) {
        PlacesAreListed(c, q, ks, p);
        ListedConcat(CommsBelow(n, path, ks, last), PathComms(c, q, ks), p);
      } else {
        UntouchedPlace(c, q, ks, p);
        assert CommsBelow(n, path, ks, last) + [] == CommsBelow(n, path, ks, last);
      }
    }
  }

  lemma UntouchedPlace(n: Node, path: Path, ks: Keys, p: Path)
    requires !Touched(ks, path)
    ensures !PlaceOpened(n, path, ks, p)
  {
  }

  lemma ByteAfter(k: Key, path: Path, j: byte)
    requires |path| < STEM_SIZE
    ensures HasPrefix(k, path + [j]) <==> HasPrefix(k, path) && k[|path|] == j
  {
    assert k[..|path| + 1] == k[..|path|] + [k[|path|]];
  }

  lemma NodePlaces(n: Node, path: Path, ks: Keys, p: Path)
    requires n.Internal? && Placed(n, path) && Touched(ks, path)
    ensures PlaceOpened(n, path, ks, p) <==> p == path || exists j :: 0 <= j < NODE_WIDTH && PlaceBelow(n, path, ks, j, p)
  {
    if p == path {
      var k: Key :| k in ks && HasPrefix(k, path);
      assert KeyOpens(n, path, k, p, k[|path|]);
    } else if PlaceOpened(n, path, ks, p) {
      var k: Key, z: nat :| k in ks && HasPrefix(k, path) && KeyOpens(n, path, k, p, z);
      ByteAfter(k, path, k[|path|]);
      assert KeyOpens(n.children[k[|path|]], path + [k[|path|]], k, p, z);
      assert PlaceBelow(n, path, ks, k[|path|], p);
    }
    if exists j :: 0 <= j < NODE_WIDTH && PlaceBelow(n, path, ks, j, p) {
      var j: byte :| PlaceBelow(n, path, ks, j, p);
      var k: Key, z: nat :| k in ks && HasPrefix(k, path + [j]) && KeyOpens(n.children[j], path + [j], k, p, z);
      ByteAfter(k, path, j);
      assert KeyOpens(n, path, k, p, z);
    }
  }

  /** The commitments listed are those some key opens. */
  lemma {:induction false} PlacesAreListed(n: Node, path: Path, ks: Keys, p: Path)
    requires Placed(n, path) && Touched(ks, path)
    ensures Listed(PathComms(n, path, ks), p) <==> PlaceOpened(n, path, ks, p)
    decreases n, NODE_WIDTH + 1
  {
    OneListed(Located(path, 0), p);
    match n
    case Empty =>
    case Unknown =>
    case Leaf(_, _, _, _, _) =>
      LeafPlaces(n, path, ks, p);
      LeafListed(n, path, ks, p);
    case Stub(_, comm) =>
      OneListed(Located(path, comm), p);
      StubPlace(n, path, ks, p);
    case Internal(_, comm) =>
      OneListed(Located(path, comm), p);
      ListedConcat([Located(path, comm)], CommsBelow(n, path, ks, NODE_WIDTH), p);
      BelowListed(n, path, ks, NODE_WIDTH, p);
      NodePlaces(n, path, ks, p);
  }

  lemma StubPlace(n: Node, path: Path, ks: Keys, p: Path)
    requires n.Stub? && Touched(ks, path)
    ensures PlaceOpened(n, path, ks, p) <==> p == path
  {
    var k: Key :| k in ks && HasPrefix(k, path);
    assert KeyOpens(n, path, k, path, 0);
  }

  ghost predicate AtSource(t: Trie.Tree, path: Path, l: Located) {
    HasPrefix(l.path, path) && SourceAt(t, l.path[|path|..]).From? && SourceAt(t, l.path[|path|..]).point == l.point
  }

  ghost predicate AllAtSource(t: Trie.Tree, path: Path, ls: seq<Located>) {
    forall j :: 0 <= j < |ls| ==> AtSource(t, path, ls[j])
  }

  lemma {:induction false} PointsAreSources(t: Trie.Tree, path: Path, ks: Keys)
    requires Trie.Valid(t, path) && Placed(Resolved(t), path)
    ensures AllAtSource(t, path, PathComms(Resolved(t), path, ks))
    decreases t, NODE_WIDTH + 1
  {
    match t
    case Empty =>
    case Leaf(_, vs) => LeafPoints(t, path, ks);
    case Node(children) =>
      assert path[..|path|] == path && path[|path|..] == [];
      PointsBelow(t, path, ks, NODE_WIDTH);
      hide Resolved, Trie.Commitment, CommsBelow;
  }

  lemma LeafPoints(t: Trie.Tree, path: Path, ks: Keys)
    requires t.Leaf? && Placed(Resolved(t), path)
    ensures AllAtSource(t, path, PathComms(Resolved(t), path, ks))
  {
    hide RequestedHalf, C1, C2, LeafCommitment, SuffixPoly, LeafPoly;
    assert path[..|path|] == path && path[|path|..] == [];
    forall b: byte ensures (path + [b])[..|path|] == path && (path + [b])[|path|..] == [b] {
    }
  }

  lemma {:induction false} PointsBelow(t: Trie.Tree, path: Path, ks: Keys, i: nat)
    requires t.Node? && Trie.Valid(t, path) && Placed(Resolved(t), path) && i <= NODE_WIDTH
    ensures AllAtSource(t, path, CommsBelow(Resolved(t), path, ks, i))
    decreases t, i
  {
    if i > 0 {
      var q := path + [i - 1];
      PointsBelow(t, path, ks, i - 1);
      if Touched(ks, q) {
        PointsAreSources(t.children[i - 1], q, ks);
        ChildSources(t, path, i - 1, PathComms(Resolved(t.children[i - 1]), q, ks));
      }
    }
  }

  lemma ChildSources(t: Trie.Tree, path: Path, i: byte, ls: seq<Located>)
    requires t.Node? && |t.children| == NODE_WIDTH && AllAtSource(t.children[i], path + [i], ls)
    ensures AllAtSource(t, path, ls)
  {
    forall j | 0 <= j < |ls| ensures AtSource(t, path, ls[j]) {
      var o := ls[j].path;
      assert AtSource(t.children[i], path + [i], ls[j]);
      assert o[..|path| + 1] == path + [i];
      assert o[..|path|] == path && o[|path|..][0] == i && o[|path|..][1..] == o[|path| + 1..];
    }
  }

  /** `ps` are the places below the root that some key opens, in order, and `cs` the commitments there. */
  ghost predicate OpenedInOrder(t: Trie.Tree, ks: Keys, ps: seq<Path>, cs: seq<Point>) {
    && StrictlySorted(ps) && |ps| == |cs|
    && (forall p :: p in ps <==> p != [] && PlaceOpened(Resolved(t), [], ks, p))
    && forall i :: 0 <= i < |ps| ==> SourceAt(t, ps[i]).From? && SourceAt(t, ps[i]).point == cs[i]
  }

  /** A proof carries the commitments its keys open, each once, in the order of their places; the root's own
      is left out. */
  lemma CommitmentsAreTheOpenedOnes(t: Trie.Tree, ks: Keys, post: seq<Value>)
    requires t.Node? && Trie.Valid(t, []) && Placed(Resolved(t), []) && ks != []
    ensures exists ps: seq<Path> :: OpenedInOrder(t, ks, ps, RoundTrip.ProofOf(Resolved(t), ks, post).cs)
  {
    assert Resolved(t).Internal?;
    hide CommsBelow, Resolved, RoundTrip.ProofOf, Trie.Valid, Placed, OpenedInOrder;
    var below := CommsBelow(Resolved(t), [], ks, NODE_WIDTH);
    RootOf(t, ks, post);
    BelowInOrder(t, ks, below);
    assert OpenedInOrder(t, ks, Paths(below), Points(below));
  }

  lemma BelowInOrder(t: Trie.Tree, ks: Keys, below: seq<Located>)
    requires t.Node? && Trie.Valid(t, []) && Placed(Resolved(t), []) && ks != []
    requires below == CommsBelow(Resolved(t), [], ks, NODE_WIDTH)
    ensures OpenedInOrder(t, ks, Paths(below), Points(below))
  {
    hide CommsBelow, Resolved, PlaceOpened, SourceAt, StrictlySorted, Trie.Valid, Placed, Touched, AllAtSource;
    RootTouched(ks);
    BelowSorted(t, ks);
    forall p: Path ensures p in Paths(below) <==> p != [] && PlaceOpened(Resolved(t), [], ks, p) {
      PlaceBelowRoot(t, ks, below, p);
    }
    PointsBelow(t, [], ks, NODE_WIDTH);
    forall i | 0 <= i < |below| ensures SourceAt(t, below[i].path).From? && SourceAt(t, below[i].path).point == below[i].point {
      SourceOfRoot(t, below, i);
    }
  }

  lemma RootTouched(ks: Keys)
    requires ks != []
    ensures Touched(ks, [])
  {
    assert ks[0] in ks && HasPrefix(ks[0], []);
  }

  lemma BelowSorted(t: Trie.Tree, ks: Keys)
    requires t.Node? && Placed(Resolved(t), [])
    ensures StrictlySorted(Paths(CommsBelow(Resolved(t), [], ks, NODE_WIDTH)))
  {
    hide CommsBelow, StrictlySorted, Paths, AllExtend, Placed;
    CommsBelowSorted(Resolved(t), [], ks, NODE_WIDTH);
  }

  lemma SourceOfRoot(t: Trie.Tree, ls: seq<Located>, i: nat)
    requires AllAtSource(t, [], ls) && i < |ls|
    ensures SourceAt(t, ls[i].path).From? && SourceAt(t, ls[i].path).point == ls[i].point
  {
    hide SourceAt;
    assert AtSource(t, [], ls[i]);
    assert ls[i].path[0..] == ls[i].path;
  }

  lemma RootOf(t: Trie.Tree, ks: Keys, post: seq<Value>)
    requires t.Node? && Placed(Resolved(t), [])
    ensures RoundTrip.ProofOf(Resolved(t), ks, post).cs == Points(CommsBelow(Resolved(t), [], ks, NODE_WIDTH))
  {
    var n := Resolved(t);
    hide CommsBelow;
    assert PathComms(n, [], ks) == [Located([], n.comm)] + CommsBelow(n, [], ks, NODE_WIDTH);
    assert RoundTrip.NotRoot(PathComms(n, [], ks)) == CommsBelow(n, [], ks, NODE_WIDTH);
  }

  lemma PlaceBelowRoot(t: Trie.Tree, ks: Keys, below: seq<Located>, p: Path)
    requires t.Node? && Placed(Resolved(t), []) && Touched(ks, []) && below == CommsBelow(Resolved(t), [], ks, NODE_WIDTH)
    ensures p in Paths(below) <==> p != [] && PlaceOpened(Resolved(t), [], ks, p)
  {
    var n := Resolved(t);
    PlacesAreListed(n, [], ks, p);
    CommsBelowSorted(n, [], ks, NODE_WIDTH);
    hide CommsBelow, PlaceOpened, StrictlySorted, Listed, Touched;
    OneListed(Located([], n.comm), p);
    ListedConcat([Located([], n.comm)], below, p);
    RootIsNotBelow(Paths(below), below, p);
  }

  lemma RootIsNotBelow(ps: seq<Path>, below: seq<Located>, p: Path)
    requires ps == Paths(below) && forall q :: q in ps ==> |q| > 0
    ensures p in ps <==> Listed(below, p)
    ensures p == [] ==> !Listed(below, p)
  {
    if Listed(below, p) {
      var j :| 0 <= j < |below| && below[j].path == p;
      assert ps[j] == p;
    }
  }

  // ----- Absence stems ---------------------------------------------------

  /** Some key ends in the leaf of this stem, and no key has the stem. */
  ghost predicate RunInto(t: Trie.Tree, path: Path, ks: Keys, s: Stem)
    requires |path| <= STEM_SIZE
  {
    !Requested(ks, s)
    && exists k: Key :: k in ks && HasPrefix(k, path) && End(t, |path|, KeyToStem(k)).Leaf? && End(t, |path|, KeyToStem(k)).stem == s
  }

  ghost predicate RunIntoBelow(t: Trie.Tree, path: Path, ks: Keys, j: nat, s: Stem)
    requires t.Node? && |t.children| == NODE_WIDTH && |path| < STEM_SIZE && j < NODE_WIDTH
  {
    RunInto(t.children[j], path + [j], ks, s)
  }

  ghost predicate SomeRunInto(t: Trie.Tree, path: Path, ks: Keys, i: nat, s: Stem)
    requires t.Node? && |t.children| == NODE_WIDTH && |path| < STEM_SIZE && i <= NODE_WIDTH
  {
    exists j :: 0 <= j < i && RunIntoBelow(t, path, ks, j, s)
  }

  lemma SomeRunIntoNext(t: Trie.Tree, path: Path, ks: Keys, i: nat, s: Stem)
    requires t.Node? && |t.children| == NODE_WIDTH && |path| < STEM_SIZE && i < NODE_WIDTH
    ensures SomeRunInto(t, path, ks, i + 1, s) <==> SomeRunInto(t, path, ks, i, s) || RunInto(t.children[i], path + [i], ks, s)
    ensures !SomeRunInto(t, path, ks, 0, s)
  {
    assert RunIntoBelow(t, path, ks, i, s) <==> RunInto(t.children[i], path + [i], ks, s);
    hide RunIntoBelow, RunInto;
  }

  lemma NodeRunInto(t: Trie.Tree, path: Path, ks: Keys, s: Stem)
    requires t.Node? && Trie.Valid(t, path)
    ensures RunInto(t, path, ks, s) <==> SomeRunInto(t, path, ks, NODE_WIDTH, s)
  {
    if RunInto(t, path, ks, s) {
      var k: Key :| k in ks && HasPrefix(k, path) && End(t, |path|, KeyToStem(k)).Leaf? && End(t, |path|, KeyToStem(k)).stem == s;
      ByteAfter(k, path, k[|path|]);
      assert RunIntoBelow(t, path, ks, k[|path|], s);
    }
    if SomeRunInto(t, path, ks, NODE_WIDTH, s) {
      var j: byte :| RunIntoBelow(t, path, ks, j, s);
      var c := t.children[j];
      var k: Key :| k in ks && HasPrefix(k, path + [j]) && End(c, |path| + 1, KeyToStem(k)).Leaf? && End(c, |path| + 1, KeyToStem(k)).stem == s;
      ByteAfter(k, path, j);
    }
  }

  /** The absence stems are the stems the keys run into without having them. */
  lemma {:induction false} AbsenceStemsAreRunInto(t: Trie.Tree, path: Path, ks: Keys, s: Stem)
    requires Trie.Valid(t, path) && Placed(Resolved(t), path) && Touched(ks, path) && |path| <= STEM_SIZE
    ensures s in AbsenceStems(Resolved(t), path, ks) <==> RunInto(t, path, ks, s)
    decreases t, NODE_WIDTH + 1
  {
    match t
    case Empty =>
    case Leaf(_, _) =>
      var k: Key :| k in ks && HasPrefix(k, path);
    case Node(_) =>
      AbsenceBelowRunInto(t, path, ks, NODE_WIDTH, s);
      NodeRunInto(t, path, ks, s);
  }

  lemma {:induction false} AbsenceBelowRunInto(t: Trie.Tree, path: Path, ks: Keys, i: nat, s: Stem)
    requires t.Node? && Trie.Valid(t, path) && Placed(Resolved(t), path) && i <= NODE_WIDTH
    ensures s in AbsenceBelow(Resolved(t), path, ks, i) <==> SomeRunInto(t, path, ks, i, s)
    decreases t, i
  {
    if i == 0 {
      SomeRunIntoNext(t, path, ks, 0, s);
    } else {
      var c, q, last := t.children[i - 1], path + [i - 1], i - 1;
      var n := Resolved(t);
      assert n.Internal? && |n.children| == NODE_WIDTH && n.children[last] == Resolved(c) && Placed(Resolved(c), q) && Trie.Valid(c, q);
      hide Resolved, Placed, Trie.Valid, AbsenceBelow, AbsenceStems, SomeRunInto, RunInto, Touched;
      AbsenceBelowRunInto(t, path, ks, last, s);
      AbsenceBelowNext(n, path, ks, last, s);
      SomeRunIntoNext(t, path, ks, last, s);
      if Touched(ks, q) {
        AbsenceStemsAreRunInto(c, q, ks, s);
      } else {
        NothingRunInto(c, q, ks, s);
      }
    }
  }

  lemma AbsenceBelowNext(n: Node, path: Path, ks: Keys, i: nat, s: Stem)
    requires n.Internal? && Placed(n, path) && i < NODE_WIDTH
    ensures s in AbsenceBelow(n, path, ks, i + 1)
       <==> s in AbsenceBelow(n, path, ks, i) || (Touched(ks, path + [i]) && s in AbsenceStems(n.children[i], path + [i], ks))
  {
    hide Touched, AbsenceStems;
  }

  lemma NothingRunInto(t: Trie.Tree, path: Path, ks: Keys, s: Stem)
    requires |path| <= STEM_SIZE && !Touched(ks, path)
    ensures !RunInto(t, path, ks, s)
  {
  }

  // ----- Values ----------------------------------------------------------

  /** The values a proof shows are what Get reads, key by key. */
  lemma ValuesAreRead(t: Trie.Tree, ks: Keys, post: seq<Value>, j: nat)
    requires Trie.Valid(t, []) && Placed(Resolved(t), []) && j < |ks|
    ensures var p := RoundTrip.ProofOf(Resolved(t), ks, post);
            p.keys == ks && |p.preValues| == |ks| && p.preValues[j] == Trie.Get(t, ks[j]) && p.postValues == post
  {
    hide Resolved, PathComms, AbsenceStems;
    Stateless.ReadResolved(t, [], ks[j]);
  }
}
