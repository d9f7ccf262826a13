/** The order of a proof's openings: by place, parents first, and at one place by index.  Together with
    which openings there are and what they say, this leaves one list only. */
module OpeningOrder {
  import opened Pedersen
  import opened VerkleTypes
  import opened ByteOrder
  import opened Multiproof
  import opened ProofPlan
  import opened Chains

  predicate Before(a: Opening, b: Opening) {
    Less(a.owner, b.owner) || (a.owner == b.owner && a.z < b.z)
  }

  ghost predicate InOrder(ops: seq<Opening>) {
    forall i, j :: 0 <= i < j < |ops| ==> Before(ops[i], ops[j])
  }

  /** Everything in `a` comes before `o`. */
  ghost predicate AllBefore(a: seq<Opening>, o: Opening) {
    forall i :: 0 <= i < |a| ==> Before(a[i], o)
  }

  lemma AppendInOrder(a: seq<Opening>, o: Opening)
    requires InOrder(a) && AllBefore(a, o)
    ensures InOrder(a + [o])
  {
    hide Before;
  }

  lemma ConcatInOrder(a: seq<Opening>, b: seq<Opening>)
    requires InOrder(a) && InOrder(b) && forall j :: 0 <= j < |b| ==> AllBefore(a, b[j])
    ensures InOrder(a + b)
  {
    hide Before;
    var all := a + b;
    forall i, j | 0 <= i < j < |all| ensures Before(all[i], all[j]) {
      if i < |a| && j >= |a| {
        assert AllBefore(a, b[j - |a|]);
      }
    }
  }

  lemma NotItself(o: Opening, p: Opening)
    ensures Before(o, p) ==> !SameClaim(o, p)
  {
    if Before(o, p) && SameClaim(o, p) {
      LessIrreflexive(o.owner);
    }
  }

  lemma NotClaimedBefore(a: seq<Opening>, o: Opening)
    requires AllBefore(a, o)
    ensures !Claimed(a, o)
  {
    forall i | 0 <= i < |a| ensures !SameClaim(a[i], o) {
      NotItself(a[i], o);
    }
  }

  /** Merging a list that comes after, and is in order itself, appends it. */
  lemma {:induction false} MergeLater(a: seq<Opening>, b: seq<Opening>)
    requires InOrder(b) && forall j :: 0 <= j < |b| ==> AllBefore(a, b[j])
    ensures MergeOps(a, b) == a + b
    decreases |b|
  {
    if b == [] {
      assert a + b == a;
    } else {
      var init, o := b[..|b| - 1], b[|b| - 1];
      MergeLater(a, init);
      assert AllBefore(a + init, o) by {
        forall i | 0 <= i < |a + init| ensures Before((a + init)[i], o) {
          if i >= |a| {
            assert Before(b[i - |a|], b[|b| - 1]);
          }
        }
      }
      NotClaimedBefore(a + init, o);
      assert a + b == (a + init) + [o];
    }
  }

  lemma {:induction false} MergeConcat(a: seq<Opening>, b: seq<Opening>, c: seq<Opening>)
    ensures MergeOps(a, b + c) == MergeOps(MergeOps(a, b), c)
    decreases |c|
  {
    if c == [] {
      assert b + c == b;
    } else {
      MergeConcat(a, b, c[..|c| - 1]);
      assert (b + c)[..|b + c| - 1] == b + c[..|c| - 1];
    }
  }

  // ----- Leaves ----------------------------------------------------------

  /** The first of the two openings of a suffix. */
  ghost predicate FirstOfPair(o: Opening, path: Path, suffix: byte) {
    o.owner == path + [2 + suffix / 128] && o.z == 2 * (suffix % 128)
  }

  lemma HalvesInOrder(path: Path, s: byte, t: byte, o: Opening, x: Opening)
    requires s < t && o.owner == path + [2 + s / 128] && 2 * (s % 128) <= o.z <= 2 * (s % 128) + 1 && FirstOfPair(x, path, t)
    ensures Before(o, x)
  {
    if s / 128 != t / 128 {
      assert s / 128 == 0 && t / 128 == 1;
      LessAtFork(path + [2], path + [3], path);
    } else {
      assert s % 128 < t % 128;
    }
  }

  lemma AboveHalf(path: Path, suffix: byte, o: Opening, x: Opening)
    requires FirstOfPair(x, path, suffix) && (Less(o.owner, path) || o.owner == path)
    ensures Before(o, x)
  {
    PrefixIsLess(path, path + [2 + suffix / 128]);
    if Less(o.owner, path) {
      LessTransitive(o.owner, path, path + [2 + suffix / 128]);
    }
  }

  lemma OwnSuffixes(ks: Keys, stem: Stem, i: nat)
    requires SortedKeys(ks) && i < |ks| && KeyToStem(ks[|ks| - 1]) == stem && KeyToStem(ks[i]) == stem
    ensures Suffix(ks[i]) <= Suffix(ks[|ks| - 1])
  {
    var a, b := ks[i], ks[|ks| - 1];
    assert i == |ks| - 1 || !Less(b, a);
    if Suffix(b) < Suffix(a) {
      LessAtFork(b, a, stem);
    }
  }

  /** The openings above the halves: they come before the leaf's own place or are at it. */
  ghost predicate AtOrBefore(b: seq<Opening>, path: Path) {
    forall i :: 0 <= i < |b| ==> Less(b[i].owner, path) || b[i].owner == path
  }

  /** One more key of the leaf's stem. */
  lemma PairMerged(m: seq<Opening>, x: Opening, y: Opening)
    requires InOrder(m) && x.owner == y.owner && y.z == x.z + 1
    requires if Claimed(m, x) then Claimed(m, y) else AllBefore(m, x)
    ensures InOrder(MergeOps(m, [x, y]))
  {
    assert [x, y][..1] == [x] && [x][..0] == [];
    assert MergeOps(m, []) == m;
    if Claimed(m, x) {
      assert MergeOps(m, [x]) == m && MergeOps(m, [x, y]) == m;
    } else {
      assert MergeOps(m, [x]) == m + [x];
      AppendInOrder(m, x);
      assert AllBefore(m + [x], y) by {
        forall i | 0 <= i < |m + [x]| ensures Before((m + [x])[i], y) {
          if i < |m| {
            assert Before(m[i], x);
          }
        }
      }
      NotClaimedBefore(m + [x], y);
      AppendInOrder(m + [x], y);
    }
  }

  /** What has been merged so far lies before a later suffix, or has the pair of the same suffix already. */
  lemma PairComesNext(b: seq<Opening>, n: Node, path: Path, ks: Keys, m: seq<Opening>, x: Opening, y: Opening)
    requires n.Leaf? && SortedKeys(ks) && ks != [] && KeyToStem(ks[|ks| - 1]) == n.stem && AtOrBefore(b, path)
    requires FirstOfPair(x, path, Suffix(ks[|ks| - 1])) && x.owner == y.owner && y.z == x.z + 1
    requires m == MergeOps(b, SlotOpenings(n.stem, n.values, n.c1, n.c2, path, ks[..|ks| - 1]))
    ensures if Claimed(m, x) then Claimed(m, y) else AllBefore(m, x)
  {
    var init, s := ks[..|ks| - 1], Suffix(ks[|ks| - 1]);
    forall o: Opening ensures Claimed(m, o) <==> Claimed(b, o) || OwnPair(n, path, init, o) {
      MergedIsOwn(b, n, path, init, o);
    }
    hide MergeOps, SlotOpenings, Before, Claimed;
    if OwnPair(n, path, init, x) {
      var k: Key :| k in init && KeyToStem(k) == n.stem && PairPlace(path, Suffix(k), x);
      SamePair(path, Suffix(k), s, x, y);
      assert OwnPair(n, path, init, y);
    } else {
      NotAbove(b, path, x);
      forall i | 0 <= i < |m| ensures Before(m[i], x) {
        ItselfClaimed(m, i);
        if OwnPair(n, path, init, m[i]) {
          var k: Key :| k in init && KeyToStem(k) == n.stem && PairPlace(path, Suffix(k), m[i]);
          EarlierSuffix(n, path, ks, k, x);
          HalvesInOrder(path, Suffix(k), s, m[i], x);
        } else {
          ClaimedAbove(b, path, m[i]);
          AboveHalf(path, s, m[i], x);
        }
      }
    }
  }

  predicate PairPlace(path: Path, suffix: byte, o: Opening) {
    o.owner == path + [2 + suffix / 128] && 2 * (suffix % 128) <= o.z <= 2 * (suffix % 128) + 1
  }

  ghost predicate OwnPair(n: Node, path: Path, ks: Keys, o: Opening)
    requires n.Leaf?
  {
    exists k: Key :: k in ks && KeyToStem(k) == n.stem && PairPlace(path, Suffix(k), o)
  }

  lemma MergedIsOwn(b: seq<Opening>, n: Node, path: Path, ks: Keys, o: Opening)
    requires n.Leaf?
    ensures Claimed(MergeOps(b, SlotOpenings(n.stem, n.values, n.c1, n.c2, path, ks)), o) <==> Claimed(b, o) || OwnPair(n, path, ks, o)
  {
    MergeKeepsClaims(b, SlotOpenings(n.stem, n.values, n.c1, n.c2, path, ks), o);
    SlotsClaimed(n.stem, n.values, n.c1, n.c2, path, ks, o);
    forall k: Key ensures Claimed(SlotPair(n.values, n.c1, n.c2, path, Suffix(k)), o) <==> PairPlace(path, Suffix(k), o) {
      PairClaimed(n.values, n.c1, n.c2, path, Suffix(k), o);
    }
    hide Claimed, SlotPair, PairPlace, SlotOpenings, MergeOps;
  }

  lemma SamePair(path: Path, s: byte, t: byte, x: Opening, y: Opening)
    requires PairPlace(path, s, x) && FirstOfPair(x, path, t) && x.owner == y.owner && y.z == x.z + 1
    ensures s == t && PairPlace(path, s, y)
  {
    assert (path + [2 + s / 128])[|path|] == (path + [2 + t / 128])[|path|];
    assert s == 128 * (s / 128) + s % 128 && t == 128 * (t / 128) + t % 128;
  }

  lemma EarlierSuffix(n: Node, path: Path, ks: Keys, k: Key, x: Opening)
    requires n.Leaf? && SortedKeys(ks) && ks != [] && KeyToStem(ks[|ks| - 1]) == n.stem
    requires k in ks[..|ks| - 1] && KeyToStem(k) == n.stem
    requires FirstOfPair(x, path, Suffix(ks[|ks| - 1])) && !OwnPair(n, path, ks[..|ks| - 1], x)
    ensures Suffix(k) < Suffix(ks[|ks| - 1])
  {
    var i :| 0 <= i < |ks| - 1 && ks[i] == k;
    OwnSuffixes(ks, n.stem, i);
    if Suffix(k) == Suffix(ks[|ks| - 1]) {
      assert PairPlace(path, Suffix(k), x);
    }
  }

  lemma ItselfClaimed(m: seq<Opening>, i: nat)
    requires i < |m|
    ensures Claimed(m, m[i])
  {
    assert SameClaim(m[i], m[i]);
  }

  lemma ClaimedAbove(b: seq<Opening>, path: Path, o: Opening)
    requires AtOrBefore(b, path) && Claimed(b, o)
    ensures Less(o.owner, path) || o.owner == path
  {
  }

  lemma NotAbove(b: seq<Opening>, path: Path, x: Opening)
    requires AtOrBefore(b, path) && |x.owner| == |path| + 1 && x.owner[..|path|] == path
    ensures !Claimed(b, x)
  {
    if Claimed(b, x) {
      ClaimedAbove(b, path, x);
      PrefixIsLess(path, x.owner);
      if Less(x.owner, path) {
        LessTransitive(path, x.owner, path);
      }
      LessIrreflexive(path);
    }
  }

  lemma {:induction false} SlotsInOrder(b: seq<Opening>, n: Node, path: Path, ks: Keys)
    requires n.Leaf? && SortedKeys(ks) && InOrder(b) && AtOrBefore(b, path)
    ensures InOrder(MergeOps(b, SlotOpenings(n.stem, n.values, n.c1, n.c2, path, ks)))
  {
    if ks != [] {
      var init, k := ks[..|ks| - 1], ks[|ks| - 1];
      assert SortedKeys(init);
      SlotsInOrder(b, n, path, init);
      var slots := SlotOpenings(n.stem, n.values, n.c1, n.c2, path, init);
      if KeyToStem(k) == n.stem {
        var pair := SlotPair(n.values, n.c1, n.c2, path, Suffix(k));
        PairShape(n, path, Suffix(k));
        MergeConcat(b, slots, pair);
        PairComesNext(b, n, path, ks, MergeOps(b, slots), pair[0], pair[1]);
        PairMerged(MergeOps(b, slots), pair[0], pair[1]);
      } else {
        assert slots + [] == slots;
      }
    }
  }

  lemma PairShape(n: Node, path: Path, suffix: byte)
    requires n.Leaf?
    ensures var pair := SlotPair(n.values, n.c1, n.c2, path, suffix);
            && |pair| == 2 && pair == [pair[0], pair[1]] && FirstOfPair(pair[0], path, suffix)
            && pair[1].owner == pair[0].owner && pair[1].z == pair[0].z + 1
  {
    assert suffix == suffix % 128 || suffix == suffix % 128 + 128;
  }

  // ----- Internal nodes --------------------------------------------------

  lemma {:induction false} OpensBelowPath(n: Node, path: Path, key: Key, owner: Path, z: nat)
    requires KeyOpens(n, path, key, owner, z)
    ensures HasPrefix(owner, path)
    decreases n
  {
    if n.Internal? && owner != path {
      OpensBelowPath(n.children[key[|path|]], path + [key[|path|]], key, owner, z);
      PrefixOfPrefix(owner, path, key[|path|]);
    }
  }

  lemma PrefixOfPrefix(o: Path, path: Path, j: byte)
    requires HasPrefix(o, path + [j])
    ensures HasPrefix(o, path) && |o| > |path| && o[|path|] == j
  {
    assert o[..|path| + 1] == path + [j];
    assert o[..|path|] == o[..|path| + 1][..|path|];
  }

  lemma OwnersBelow(n: Node, path: Path, ks: Keys, i: nat)
    requires Placed(n, path) && Touched(ks, path) && i < |Openings(n, path, ks)|
    ensures HasPrefix(Openings(n, path, ks)[i].owner, path)
  {
    var ops := Openings(n, path, ks);
    ItselfClaimed(ops, i);
    OpeningsAreUnion(n, path, ks, ops[i]);
    hide Openings, Claimed;
    var k: Key :| k in ks && HasPrefix(k, path) && KeyOpens(n, path, k, ops[i].owner, ops[i].z);
    OpensBelowPath(n, path, k, ops[i].owner, ops[i].z);
  }

  /** Every place in the list comes before the place `q`. */
  ghost predicate PlacesBefore(ops: seq<Opening>, q: Path) {
    forall i :: 0 <= i < |ops| ==> Less(ops[i].owner, q)
  }

  lemma BeforeBelow(a: seq<Opening>, q: Path, o: Opening)
    requires PlacesBefore(a, q) && HasPrefix(o.owner, q)
    ensures AllBefore(a, o)
  {
    forall i | 0 <= i < |a| ensures Before(a[i], o) {
      if o.owner != q {
        assert |o.owner| > |q|;
        PrefixIsLess(q, o.owner);
        LessTransitive(a[i].owner, q, o.owner);
      }
    }
  }

  lemma ExtensionInOrder(stem: Stem, comm: Point, c1: Point, c2: Point, path: Path, ks: Keys)
    ensures var ops := ExtensionOpenings(stem, comm, c1, c2, path, ks);
            InOrder(ops) && forall i :: 0 <= i < |ops| ==> ops[i].owner == path
  {
    hide LeafPoly, RequestedHalf;
  }

  /** The list of a leaf, merged into what comes before it. */
  lemma LeafMergedInOrder(a: seq<Opening>, n: Node, path: Path, ks: Keys)
    requires n.Leaf? && Placed(n, path) && SortedKeys(ks) && InOrder(a) && PlacesBefore(a, path)
    ensures InOrder(MergeOps(a, Openings(n, path, ks)))
  {
    var under := Under(ks, path);
    UnderSorted(ks, path);
    var ext, slots := ExtensionOpenings(n.stem, n.comm, n.c1, n.c2, path, under), SlotOpenings(n.stem, n.values, n.c1, n.c2, path, under);
    ExtensionInOrder(n.stem, n.comm, n.c1, n.c2, path, under);
    assert Openings(n, path, ks) == ext + slots;
    hide ExtensionOpenings, SlotOpenings, Openings, SortedKeys, Under, MergeOps;
    MergeConcat(a, ext, slots);
    forall j | 0 <= j < |ext| ensures AllBefore(a, ext[j]) {
      BeforeBelow(a, path, ext[j]);
    }
    MergeLater(a, ext);
    ConcatInOrder(a, ext);
    SlotsInOrder(a + ext, n, path, under);
  }

  lemma {:induction false} OwnInOrder(children: seq<Node>, comm: Point, path: Path, ks: Keys, i: nat)
    requires i <= |children| == NODE_WIDTH
    ensures var ops := OwnOpenings(children, comm, path, ks, i);
            InOrder(ops) && forall j :: 0 <= j < |ops| ==> ops[j].owner == path && ops[j].z < i
  {
    if i > 0 {
      OwnInOrder(children, comm, path, ks, i - 1);
    }
  }

  /** A child's list, merged into what comes before it. */
  lemma {:induction false} ChildMergedInOrder(a: seq<Opening>, n: Node, path: Path, ks: Keys)
    requires Placed(n, path) && Touched(ks, path) && SortedKeys(ks) && InOrder(a) && PlacesBefore(a, path)
    ensures InOrder(MergeOps(a, Openings(n, path, ks)))
    decreases n, NODE_WIDTH + 1
  {
    match n
    case Empty =>
    case Unknown =>
    case Leaf(_, _, _, _, _) => LeafMergedInOrder(a, n, path, ks);
    case Stub(stem, comm) =>
      ExtensionInOrder(stem, comm, IDENTITY, IDENTITY, path, []);
      LaterMerged(a, n, path, ks);
    case Internal(_, _) =>
      MergedInOrder(n, path, ks, NODE_WIDTH);
      LaterMerged(a, n, path, ks);
  }

  lemma LaterMerged(a: seq<Opening>, n: Node, path: Path, ks: Keys)
    requires Placed(n, path) && Touched(ks, path) && InOrder(a) && PlacesBefore(a, path) && InOrder(Openings(n, path, ks))
    ensures InOrder(MergeOps(a, Openings(n, path, ks)))
  {
    var ops := Openings(n, path, ks);
    hide Openings, InOrder, AllBefore, MergeOps;
    forall j | 0 <= j < |ops| ensures AllBefore(a, ops[j]) {
      OwnersBelow(n, path, ks, j);
      BeforeBelow(a, path, ops[j]);
    }
    MergeLater(a, ops);
    ConcatInOrder(a, ops);
  }

  /** The places of a merged list: the node's own, or below one of the children so far. */
  lemma MergedPlaces(n: Node, path: Path, ks: Keys, i: nat)
    requires n.Internal? && Placed(n, path) && i < NODE_WIDTH
    ensures PlacesBefore(MergedBelow(n, path, ks, i), path + [i])
  {
    var ops, q := MergedBelow(n, path, ks, i), path + [i];
    forall m | 0 <= m < |ops| ensures Less(ops[m].owner, q) {
      var o := ops[m];
      ItselfClaimed(ops, m);
      MergedClaimed(n, path, ks, i, o);
      hide MergedBelow, Claimed, SomeKeyOpens;
      if o.owner == path {
        PrefixIsLess(path, q);
      } else {
        var j :| 0 <= j < i && OpensBelow(n, path, ks, j, o);
        PlaceOfChild(n, path, ks, j, o);
        LessAtFork(o.owner, q, path);
      }
    }
  }

  lemma PlaceOfChild(n: Node, path: Path, ks: Keys, j: byte, o: Opening)
    requires n.Internal? && |n.children| == NODE_WIDTH && OpensBelow(n, path, ks, j, o)
    ensures HasPrefix(o.owner, path) && |o.owner| > |path| && o.owner[|path|] == j
  {
    var k: Key :| k in ks && HasPrefix(k, path + [j]) && KeyOpens(n.children[j], path + [j], k, o.owner, o.z);
    OpensBelowPath(n.children[j], path + [j], k, o.owner, o.z);
    PrefixOfPrefix(o.owner, path, j);
  }

  /** The list an internal node hands up, in particular the root's, is in order. */
  lemma {:induction false} MergedInOrder(n: Node, path: Path, ks: Keys, i: nat)
    requires n.Internal? && Placed(n, path) && SortedKeys(ks) && i <= NODE_WIDTH
    ensures InOrder(MergedBelow(n, path, ks, i))
    decreases n, i
  {
    if i == 0 {
      OwnInOrder(n.children, n.comm, path, ks, NODE_WIDTH);
    } else {
      MergedInOrder(n, path, ks, i - 1);
      MergedPlaces(n, path, ks, i - 1);
      if Touched(ks, path + [i - 1]) {
        ChildMergedInOrder(MergedBelow(n, path, ks, i - 1), n.children[i - 1], path + [i - 1], ks);
      }
    }
  }

  // ----- One list only -----------------------------------------------------

  ghost predicate SameMembers(a: seq<Opening>, b: seq<Opening>) {
    forall o :: o in a <==> o in b
  }

  /** Two lists in order with the same members are the same list. */
  lemma {:induction false} OrderDecides(a: seq<Opening>, b: seq<Opening>)
    requires InOrder(a) && InOrder(b) && SameMembers(a, b)
    ensures a == b
    decreases |a|
  {
    EmptyTogether(a, b);
    if a != [] {
      var x, y := a[|a| - 1], b[|b| - 1];
      LastIsLatest(a, b);
      assert x == y;
      DropLast(a, b);
      OrderDecides(a[..|a| - 1], b[..|b| - 1]);
    }
  }

  lemma EmptyTogether(a: seq<Opening>, b: seq<Opening>)
    requires SameMembers(a, b)
    ensures a == [] <==> b == []
  {
    assert a == [] || a[0] in a;
    assert b == [] || b[0] in b;
  }

  lemma LastIsLatest(a: seq<Opening>, b: seq<Opening>)
    requires InOrder(a) && InOrder(b) && SameMembers(a, b) && a != [] && b != []
    ensures a[|a| - 1] == b[|b| - 1]
  {
    var x, y := a[|a| - 1], b[|b| - 1];
    assert x in b && y in a;
    var i :| 0 <= i < |b| && b[i] == x;
    var j :| 0 <= j < |a| && a[j] == y;
    if x != y {
      assert Before(x, y) && Before(y, x);
      NotBoth(x, y);
    }
  }

  lemma NotBoth(x: Opening, y: Opening)
    requires Before(x, y)
    ensures !Before(y, x)
  {
    if Before(y, x) {
      if Less(x.owner, y.owner) && Less(y.owner, x.owner) {
        LessTransitive(x.owner, y.owner, x.owner);
      }
      LessIrreflexive(x.owner);
    }
  }

  lemma DropLast(a: seq<Opening>, b: seq<Opening>)
    requires InOrder(a) && InOrder(b) && SameMembers(a, b) && a != [] && b != [] && a[|a| - 1] == b[|b| - 1]
    ensures InOrder(a[..|a| - 1]) && InOrder(b[..|b| - 1]) && SameMembers(a[..|a| - 1], b[..|b| - 1])
  {
    OnlyLast(a);
    OnlyLast(b);
    hide InOrder;
    var x, y := a[..|a| - 1], b[..|b| - 1];
    forall o: Opening ensures o in x <==> o in y {
      assert o in a <==> o in b;
    }
  }

  lemma OnlyLast(a: seq<Opening>)
    requires InOrder(a) && a != []
    ensures InOrder(a[..|a| - 1])
    ensures forall o :: o in a[..|a| - 1] <==> o in a && o != a[|a| - 1]
  {
    var n := |a| - 1;
    forall i | 0 <= i < n ensures a[i] != a[n] {
      NotItself(a[i], a[n]);
      assert Before(a[i], a[n]);
    }
    assert a == a[..n] + [a[n]];
  }
}
