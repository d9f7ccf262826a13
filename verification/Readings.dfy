/** What a proof shows about one key, link by link: the child commitments from the root down, and at the
    end the value, the other stem, or the empty slot; and the status byte that names the end. */
module Readings {
  import opened Pedersen
  import opened VerkleTypes
  import opened ByteOrder
  import opened Multiproof
  import opened Stateless
  import opened Chains
  import opened LeafScalars
  import Trie

  /** The subtree at a place; empty where there is none. */
  function SubAt(t: Trie.Tree, place: Path): Trie.Tree
    decreases t
  {
    if place == [] then t
    else if t.Node? && |t.children| == NODE_WIDTH then SubAt(t.children[place[0]], place[1..])
    else Trie.Empty
  }

  /** How deep the walk along a stem goes before it leaves the internal nodes. */
  function EndDepth(t: Trie.Tree, depth: nat, stem: Stem): (d: nat)
    requires depth <= STEM_SIZE
    ensures depth <= d <= STEM_SIZE
    decreases t
  {
    if t.Node? && depth < STEM_SIZE && |t.children| == NODE_WIDTH then EndDepth(t.children[stem[depth]], depth + 1, stem)
    else depth
  }

  /** What is there. */
  function End(t: Trie.Tree, depth: nat, stem: Stem): Trie.Tree
    decreases t
  {
    if t.Node? && depth < STEM_SIZE && |t.children| == NODE_WIDTH then End(t.children[stem[depth]], depth + 1, stem)
    else t
  }

  /** The end is below the internal nodes at the first `d` bytes of the stem, and holds all there is to find. */
  lemma {:induction false} EndIsThere(t: Trie.Tree, path: Path, stem: Stem)
    requires Trie.Valid(t, path) && HasPrefix(stem, path)
    ensures var d := EndDepth(t, |path|, stem);
            && SubAt(t, stem[|path|..d]) == End(t, |path|, stem) && !End(t, |path|, stem).Node?
            && (forall e :: |path| <= e < d ==> SubAt(t, stem[|path|..e]).Node?)
            && (Trie.Find(t, |path|, stem).Found? <==> End(t, |path|, stem).Leaf? && End(t, |path|, stem).stem == stem)
            && (Trie.Find(t, |path|, stem).Found? ==> Trie.Find(t, |path|, stem).values == End(t, |path|, stem).values)
    decreases t
  {
    if t.Node? {
      var i, d := stem[|path|], EndDepth(t, |path|, stem);
      assert stem[..|path| + 1] == path + [i];
      EndIsThere(t.children[i], path + [i], stem);
      forall e | |path| < e <= d ensures stem[|path|..e][0] == i && stem[|path|..e][1..] == stem[|path| + 1..e] {
      }
      assert stem[|path|..|path|] == [];
    } else {
      assert stem[|path|..|path|] == [];
    }
  }

  // ----- The status byte -------------------------------------------------

  lemma {:induction false} WalkEnds(t: Trie.Tree, path: Path, stem: Stem)
    requires Trie.Valid(t, path) && HasPrefix(stem, path)
    ensures var w, end := Walk(Resolved(t), |path|, stem), End(t, |path|, stem);
            && w.depth == EndDepth(t, |path|, stem)
            && (end.Empty? ==> w.status == 0) && (end.Leaf? ==> w.status == if end.stem == stem then 2 else 1)
    decreases t
  {
    if t.Node? {
      assert stem[..|path| + 1] == path + [stem[|path|]];
      WalkEnds(t.children[stem[|path|]], path + [stem[|path|]], stem);
    }
  }

  /** Eight times the depth of the end, and on top 2 for the stem's own leaf, 1 for the leaf of another stem,
      0 for an empty slot. It is 2 modulo 4 exactly when the tree has the stem. */
  lemma StatusByteNamesTheEnd(t: Trie.Tree, stems: seq<Stem>, j: nat)
    requires t.Node? && Trie.Valid(t, []) && j < |stems|
    ensures var b, d, end := Statuses(Resolved(t), 0, stems)[j], EndDepth(t, 0, stems[j]), End(t, 0, stems[j]);
            && !end.Node?
            && b as int == 8 * d + (if end.Empty? then 0 else if end.stem == stems[j] then 2 else 1)
            && (b % 4 == 2 <==> Trie.Find(t, 0, stems[j]).Found?)
  {
    EndIsThere(t, [], stems[j]);
    WalkEnds(t, [], stems[j]);
    StatusByte(Resolved(t), 0, stems, j);
  }

  // ----- Openings found --------------------------------------------------

  /** Some opening of the list is at this place and point, with this commitment and value. */
  ghost predicate Opened(ops: seq<Opening>, owner: Path, c: Point, z: nat, y: Scalar) {
    exists i :: 0 <= i < |ops| && ops[i].owner == owner && ops[i].c == c && ops[i].z == z && ops[i].y == y
  }

  lemma NeededIsOpened(t: Trie.Tree, ks: Keys, key: Key, owner: Path, z: byte)
    requires t.Node? && Trie.Valid(t, []) && Placed(Resolved(t), []) && key in ks && KeyOpens(Resolved(t), [], key, owner, z)
    ensures var s := SourceAt(t, owner);
            s.From? && |s.poly| == NODE_WIDTH && Opened(Openings(Resolved(t), [], ks), owner, s.point, z, s.poly[z])
  {
    var ops, o := Openings(Resolved(t), [], ks), Opening(owner, 0, z, 0, []);
    assert HasPrefix(key, []);
    OpeningsAreUnion(Resolved(t), [], ks, o);
    OpeningsSayTheTree(t, [], ks);
    hide Openings, KeyOpens, Resolved;
    assert SomeKeyOpens(Resolved(t), [], ks, o);
    var i :| 0 <= i < |ops| && SameClaim(ops[i], o);
    assert SaysTheTree(t, [], ops[i]);
    assert ops[i].owner[0..] == owner;
  }

  /** Where the walk of a key opens: at every internal node on its way, and at its end. */
  lemma {:induction false} WayIsNeeded(t: Trie.Tree, path: Path, key: Key, e: nat)
    requires Trie.Valid(t, path) && HasPrefix(key, path)
    requires |path| <= STEM_SIZE && |path| <= e < EndDepth(t, |path|, KeyToStem(key))
    ensures KeyOpens(Resolved(t), path, key, key[..e], key[e])
    decreases t
  {
    var d, i := |path|, key[|path|];
    assert key[..d + 1] == path + [i] && KeyToStem(key)[d] == i;
    if e > d {
      WayIsNeeded(t.children[i], path + [i], key, e);
    }
  }

  lemma {:induction false} NodeOnWay(t: Trie.Tree, path: Path, key: Key, e: nat)
    requires Trie.Valid(t, path) && HasPrefix(key, path)
    requires |path| <= STEM_SIZE && |path| <= e < EndDepth(t, |path|, KeyToStem(key))
    ensures var p := SubAt(t, key[|path|..e]);
            && p.Node? && |p.children| == NODE_WIDTH && SubAt(t, key[|path|..e + 1]) == p.children[key[e]]
            && SourceAt(t, key[|path|..e]) == From(Trie.Commitment(p), Trie.ChildScalars(p.children))
    decreases t
  {
    var d, i := |path|, key[|path|];
    assert key[..d + 1] == path + [i] && KeyToStem(key)[d] == i;
    if e == d {
      assert key[d..d] == [] && key[d..d + 1] == [i] && [i][1..] == [];
    } else {
      NodeOnWay(t.children[i], path + [i], key, e);
      hide EndDepth, Trie.Valid;
      FirstStep(key, d, e);
      FirstStep(key, d, e + 1);
    }
  }

  lemma FirstStep(key: Key, d: nat, e: nat)
    requires d < e <= |key|
    ensures key[d..e] != [] && key[d..e][0] == key[d] && key[d..e][1..] == key[d + 1..e]
  {
  }

  lemma {:induction false} EndIsNeeded(t: Trie.Tree, path: Path, key: Key, place: Path, owner: Path, z: nat)
    requires Trie.Valid(t, path) && HasPrefix(key, path) && |path| <= STEM_SIZE
    requires place == key[..EndDepth(t, |path|, KeyToStem(key))]
    requires KeyOpens(Resolved(End(t, |path|, KeyToStem(key))), place, key, owner, z)
    ensures KeyOpens(Resolved(t), path, key, owner, z)
    decreases t
  {
    if t.Node? {
      var d, i := |path|, key[|path|];
      assert key[..d + 1] == path + [i] && KeyToStem(key)[d] == i;
      EndIsNeeded(t.children[i], path + [i], key, place, owner, z);
      ChildNeeds(t, path, key, owner, z);
    } else {
      assert place == path;
    }
  }

  lemma ChildNeeds(t: Trie.Tree, path: Path, key: Key, owner: Path, z: nat)
    requires t.Node? && |t.children| == NODE_WIDTH && |path| < STEM_SIZE
    requires KeyOpens(Resolved(t.children[key[|path|]]), path + [key[|path|]], key, owner, z)
    ensures KeyOpens(Resolved(t), path, key, owner, z)
  {
  }

  lemma {:induction false} SourceBelow(t: Trie.Tree, place: Path, more: Path)
    requires SubAt(t, place).Leaf?
    ensures SourceAt(t, place + more) == SourceAt(SubAt(t, place), more)
    decreases t
  {
    if place == [] {
      assert place + more == more;
    } else {
      SourceBelow(t.children[place[0]], place[1..], more);
      assert (place + more)[0] == place[0] && (place + more)[1..] == place[1..] + more;
    }
  }

  // ----- What a proof shows ----------------------------------------------

  /** Every node on a key's way opens at the next byte to the scalar of its child's commitment. */
  lemma LinkIsOpened(t: Trie.Tree, ks: Keys, key: Key, e: nat)
    requires t.Node? && Trie.Valid(t, []) && Placed(Resolved(t), []) && key in ks && e < EndDepth(t, 0, KeyToStem(key))
    ensures var parent, child := SubAt(t, key[..e]), SubAt(t, key[..e + 1]);
            Opened(Openings(Resolved(t), [], ks), key[..e], Trie.Commitment(parent), key[e], MapToScalarField(Trie.Commitment(child)))
  {
    assert key[0..e] == key[..e] && key[0..e + 1] == key[..e + 1];
    WayIsNeeded(t, [], key, e);
    NodeOnWay(t, [], key, e);
    hide KeyOpens, Resolved, Openings, SourceAt, EndDepth, SubAt;
    NeededIsOpened(t, ks, key, key[..e], key[e]);
  }

  /** A key whose walk ends in an empty slot: its last node opens to zero there. */
  lemma EmptySlotIsOpened(t: Trie.Tree, ks: Keys, key: Key)
    requires t.Node? && Trie.Valid(t, []) && Placed(Resolved(t), []) && key in ks && End(t, 0, KeyToStem(key)).Empty?
    ensures var d := EndDepth(t, 0, KeyToStem(key));
            d > 0 && Opened(Openings(Resolved(t), [], ks), key[..d - 1], Trie.Commitment(SubAt(t, key[..d - 1])), key[d - 1], 0)
  {
    var d := EndDepth(t, 0, KeyToStem(key));
    EndIsThere(t, [], KeyToStem(key));
    LinkIsOpened(t, ks, key, d - 1);
    assert KeyToStem(key)[0..d] == key[..d];
  }

  /** A key whose walk ends in a leaf: the leaf opens to the marker one and to the number its stem writes,
      whether the stem is the key's or another one. */
  lemma StemIsOpened(t: Trie.Tree, ks: Keys, key: Key)
    requires t.Node? && Trie.Valid(t, []) && Placed(Resolved(t), []) && key in ks && End(t, 0, KeyToStem(key)).Leaf?
    ensures var d, leaf, ops := EndDepth(t, 0, KeyToStem(key)), End(t, 0, KeyToStem(key)), Openings(Resolved(t), [], ks);
            && Opened(ops, key[..d], Trie.Commitment(leaf), 0, 1)
            && exists y: nat :: Opened(ops, key[..d], Trie.Commitment(leaf), 1, y) && Writes(y, leaf.stem)
  {
    var d, leaf := EndDepth(t, 0, KeyToStem(key)), End(t, 0, KeyToStem(key));
    LeafSource(t, key);
    NeededAtEnd(t, key, key[..d], key[..d], 0);
    NeededAtEnd(t, key, key[..d], key[..d], 1);
    NeededIsOpened(t, ks, key, key[..d], 0);
    NeededIsOpened(t, ks, key, key[..d], 1);
    ExtensionCoefficients(leaf.stem, C1(leaf.values), C2(leaf.values));
    hide LeafPoly, Openings, Opened;
    var y: nat := LeafPoly(leaf.stem, C1(leaf.values), C2(leaf.values))[1];
  }

  lemma LeafSource(t: Trie.Tree, key: Key)
    requires t.Node? && Trie.Valid(t, []) && End(t, 0, KeyToStem(key)).Leaf?
    ensures var d, leaf := EndDepth(t, 0, KeyToStem(key)), End(t, 0, KeyToStem(key));
            && SourceAt(t, key[..d]) == From(Trie.Commitment(leaf), LeafPoly(leaf.stem, C1(leaf.values), C2(leaf.values)))
            && SourceAt(t, key[..d] + [2]) == From(C1(leaf.values), SuffixPoly(leaf.values, 0))
            && SourceAt(t, key[..d] + [3]) == From(C2(leaf.values), SuffixPoly(leaf.values, 128))
  {
    var d := EndDepth(t, 0, KeyToStem(key));
    EndIsThere(t, [], KeyToStem(key));
    assert KeyToStem(key)[0..d] == key[..d] && key[..d] + [] == key[..d];
    SourceBelow(t, key[..d], []);
    SourceBelow(t, key[..d], [2]);
    SourceBelow(t, key[..d], [3]);
  }

  /** Two neighbouring points of a commitment are opened to the scalars of a value. */
  ghost predicate ValueOpened(ops: seq<Opening>, owner: Path, c: Point, z: nat, v: Value) {
    exists lo: Scalar, hi: Scalar :: Opened(ops, owner, c, z, lo) && Opened(ops, owner, c, z + 1, hi) && ScalarPair(v, lo, hi)
  }

  /** Where the half that holds a suffix sits: below its leaf. */
  function HalfPlace(leaf: Path, suffix: byte): Path {
    leaf + [2 + suffix / 128]
  }

  /** A key whose stem is in the tree: the leaf opens to the scalar of its half, and the half opens at two
      neighbouring points to the scalars of the value, both zero for an absent one. */
  lemma ValueIsOpened(t: Trie.Tree, ks: Keys, key: Key)
    requires t.Node? && Trie.Valid(t, []) && Placed(Resolved(t), []) && key in ks
    requires Trie.Find(t, 0, KeyToStem(key)).Found? && !TooLong(Trie.Get(t, key))
    ensures var place, vs, ops := key[..EndDepth(t, 0, KeyToStem(key))], Trie.Find(t, 0, KeyToStem(key)).values, Openings(Resolved(t), [], ks);
            var c := if key[31] < 128 then C1(vs) else C2(vs);
            && Opened(ops, place, LeafCommitment(KeyToStem(key), vs), 2 + key[31] / 128, MapToScalarField(c))
            && ValueOpened(ops, HalfPlace(place, key[31]), c, 2 * (key[31] % 128), Trie.Get(t, key))
  {
    EndIsThere(t, [], KeyToStem(key));
    var vs := End(t, 0, KeyToStem(key)).values;
    assert Trie.Get(t, key) == vs[key[31]];
    HalfIsOpened(t, ks, key, key[..EndDepth(t, 0, KeyToStem(key))]);
    hide Openings, SuffixPoly, EndDepth, End, Resolved, LeafCommitment, Trie.Find, Trie.Get, Trie.Valid, Placed, HalfPlace, Opened;
    PairIsValue(Openings(Resolved(t), [], ks), HalfPlace(key[..EndDepth(t, 0, KeyToStem(key))], key[31]), vs, key[31]);
  }

  /** A half of a leaf, opened at the two points of a suffix to what its polynomial is there. */
  ghost predicate PairOpened(ops: seq<Opening>, owner: Path, vs: Values, suffix: byte) {
    var f, c, z := SuffixPoly(vs, if suffix < 128 then 0 else 128), (if suffix < 128 then C1(vs) else C2(vs)), 2 * (suffix % 128);
    Opened(ops, owner, c, z, f[z]) && Opened(ops, owner, c, z + 1, f[z + 1])
  }

  lemma PairIsValue(ops: seq<Opening>, owner: Path, vs: Values, suffix: byte)
    requires PairOpened(ops, owner, vs, suffix) && !TooLong(vs[suffix])
    ensures ValueOpened(ops, owner, if suffix < 128 then C1(vs) else C2(vs), 2 * (suffix % 128), vs[suffix])
  {
    var f, c, z := SuffixPoly(vs, if suffix < 128 then 0 else 128), (if suffix < 128 then C1(vs) else C2(vs)), 2 * (suffix % 128);
    PairOfSuffix(vs, suffix);
    hide SuffixPoly, ScalarPair, Opened, C1, C2;
    assert Opened(ops, owner, c, z, f[z]) && Opened(ops, owner, c, z + 1, f[z + 1]) && ScalarPair(vs[suffix], f[z], f[z + 1]);
  }

  lemma PairOfSuffix(vs: Values, suffix: byte)
    requires !TooLong(vs[suffix])
    ensures var f, z := SuffixPoly(vs, if suffix < 128 then 0 else 128), 2 * (suffix % 128); ScalarPair(vs[suffix], f[z], f[z + 1])
  {
    var first, m := if suffix < 128 then 0 else 128, suffix % 128;
    assert suffix == first + m;
    hide SuffixPoly, ScalarPair;
    ValueCoefficients(vs, first, m);
  }

  lemma HalfIsOpened(t: Trie.Tree, ks: Keys, key: Key, place: Path)
    requires t.Node? && Trie.Valid(t, []) && Placed(Resolved(t), []) && key in ks && End(t, 0, KeyToStem(key)).Leaf?
    requires End(t, 0, KeyToStem(key)).stem == KeyToStem(key) && place == key[..EndDepth(t, 0, KeyToStem(key))]
    ensures var vs, ops := End(t, 0, KeyToStem(key)).values, Openings(Resolved(t), [], ks);
            var c := if key[31] < 128 then C1(vs) else C2(vs);
            && Opened(ops, place, LeafCommitment(KeyToStem(key), vs), 2 + key[31] / 128, MapToScalarField(c))
            && PairOpened(ops, HalfPlace(place, key[31]), vs, key[31])
  {
    hide Openings, Opened, KeyOpens, EndDepth, End, Resolved, Trie.Valid, Placed, SourceAt, PairOpened, HalfPlace, SuffixPoly, LeafPoly;
    hide C1, C2, LeafCommitment;
    var suffix := key[31];
    var half: byte, z: byte, owner := 2 + suffix / 128, 2 * (suffix % 128), HalfPlace(place, suffix);
    LeafSource(t, key);
    LeafNeeds(t, key, place, suffix, half, z, owner);
    NeededIsOpened(t, ks, key, place, half);
    NeededIsOpened(t, ks, key, owner, z);
    NeededIsOpened(t, ks, key, owner, z + 1);
    SourcesOfHalf(t, Openings(Resolved(t), [], ks), End(t, 0, KeyToStem(key)), place, suffix, half, z, owner);
  }

  lemma SourcesOfHalf(t: Trie.Tree, ops: seq<Opening>, leaf: Trie.Tree, place: Path, suffix: byte, half: byte, z: byte, owner: Path)
    requires leaf.Leaf? && half == 2 + suffix / 128 && z == 2 * (suffix % 128) && owner == HalfPlace(place, suffix)
    requires SourceAt(t, place) == From(Trie.Commitment(leaf), LeafPoly(leaf.stem, C1(leaf.values), C2(leaf.values)))
    requires SourceAt(t, place + [2]) == From(C1(leaf.values), SuffixPoly(leaf.values, 0))
    requires SourceAt(t, place + [3]) == From(C2(leaf.values), SuffixPoly(leaf.values, 128))
    requires Opened(ops, place, SourceAt(t, place).point, half, SourceAt(t, place).poly[half])
    requires SourceAt(t, owner).From? && |SourceAt(t, owner).poly| == NODE_WIDTH
    requires Opened(ops, owner, SourceAt(t, owner).point, z, SourceAt(t, owner).poly[z])
    requires Opened(ops, owner, SourceAt(t, owner).point, z + 1, SourceAt(t, owner).poly[z + 1])
    ensures var c := if suffix < 128 then C1(leaf.values) else C2(leaf.values);
            Opened(ops, place, LeafCommitment(leaf.stem, leaf.values), 2 + suffix / 128, MapToScalarField(c))
    ensures PairOpened(ops, owner, leaf.values, suffix)
  {
    hide Opened, SuffixPoly, LeafPoly, SourceAt, C1, C2, ByteAt;
    ExtensionCoefficients(leaf.stem, C1(leaf.values), C2(leaf.values));
    assert half == if suffix < 128 then 2 else 3;
  }

  lemma NeededAtEnd(t: Trie.Tree, key: Key, place: Path, owner: Path, z: nat)
    requires t.Node? && Trie.Valid(t, []) && Placed(Resolved(t), []) && place == key[..EndDepth(t, 0, KeyToStem(key))]
    requires KeyOpens(Resolved(End(t, 0, KeyToStem(key))), place, key, owner, z)
    ensures KeyOpens(Resolved(t), [], key, owner, z)
  {
    hide KeyOpens, Resolved, Trie.Valid, End, EndDepth;
    assert HasPrefix(key, []);
    EndIsNeeded(t, [], key, place, owner, z);
  }

  lemma LeafNeeds(t: Trie.Tree, key: Key, place: Path, suffix: byte, half: nat, z: nat, owner: Path)
    requires t.Node? && Trie.Valid(t, []) && Placed(Resolved(t), []) && End(t, 0, KeyToStem(key)).Leaf?
    requires End(t, 0, KeyToStem(key)).stem == KeyToStem(key) && place == key[..EndDepth(t, 0, KeyToStem(key))]
    requires suffix == key[31] && half == 2 + suffix / 128 && z == 2 * (suffix % 128) && owner == HalfPlace(place, suffix)
    ensures KeyOpens(Resolved(t), [], key, place, half) && KeyOpens(Resolved(t), [], key, owner, z) && KeyOpens(Resolved(t), [], key, owner, z + 1)
  {
    OwnLeafOpens(Resolved(End(t, 0, KeyToStem(key))), place, key, suffix, half, z, owner);
    hide KeyOpens, EndDepth, End, Resolved, Trie.Valid, Placed, HalfPlace;
    NeededAtEnd(t, key, place, place, half);
    NeededAtEnd(t, key, place, owner, z);
    NeededAtEnd(t, key, place, owner, z + 1);
  }

  lemma OwnLeafOpens(n: Node, path: Path, key: Key, suffix: byte, half: nat, z: nat, owner: Path)
    requires n.Leaf? && n.stem == key[..31]
    requires suffix == key[31] && half == 2 + suffix / 128 && z == 2 * (suffix % 128) && owner == HalfPlace(path, suffix)
    ensures KeyOpens(n, path, key, path, half) && KeyOpens(n, path, key, owner, z) && KeyOpens(n, path, key, owner, z + 1)
  {
  }
}
