/** GetProofItems on leaves, stubs and internal nodes, against the lists a proof is made of. */
module Extraction {
  import opened Pedersen
  import opened VerkleTypes
  import opened LeafNodes
  import opened ByteOrder
  import opened Multiproof
  import opened Stateless
  import opened ProofPlan
  import opened ProofItems
  import Trie

  // ----- When the extraction succeeds -------------------------------------

  predicate HalfTooLong(values: Values, first: nat)
    requires first == 0 || first == 128
  {
    exists i :: first <= i < first + 128 && TooLong(values[i])
  }

  predicate LeafAnswerable(stem: Stem, values: Values, ks: Keys) {
    && (RequestedHalf(ks, stem, 0) ==> !HalfTooLong(values, 0))
    && (RequestedHalf(ks, stem, 128) ==> !HalfTooLong(values, 128))
  }

  /** No key leads to an unknown subtree, to a stub of its own stem, or to a half with an over-long value. */
  predicate Answerable(n: Node, path: Path, ks: Keys)
    decreases n
  {
    match n
    case Empty => true
    case Unknown => false
    case Leaf(stem, values, _, _, _) => LeafAnswerable(stem, values, Under(ks, path))
    case Stub(stem, _) => !Requested(Under(ks, path), stem)
    case Internal(children, _) =>
      |children| == NODE_WIDTH
      && forall i :: 0 <= i < NODE_WIDTH && Touched(ks, path + [i]) ==> Answerable(children[i], path + [i], ks)
  }

  /** What the keys reveal of a tree that can be answered can be answered for the same keys. */
  lemma {:induction false} PartialIsAnswerable(n: Node, path: Path, ks: Keys)
    requires Placed(n, path) && Full(n) && Answerable(n, path, ks)
    ensures Answerable(Partial(n, path, ks), path, ks)
    decreases n
  {
    match n
    case Empty =>
    case Leaf(stem, values, _, _, _) => PartialLeafIsAnswerable(n, path, ks);
    case Internal(children, _) =>
      forall i | 0 <= i < NODE_WIDTH && Touched(ks, path + [i]) ensures Answerable(Partial(n, path, ks).children[i], path + [i], ks) {
        PartialIsAnswerable(children[i], path + [i], ks);
      }
  }

  lemma PartialLeafIsAnswerable(n: Node, path: Path, ks: Keys)
    requires n.Leaf? && Placed(n, path) && Answerable(n, path, ks)
    ensures Answerable(Partial(n, path, ks), path, ks)
  {
    RequestedUnder(ks, path, n.stem, 0);
    if Requested(ks, n.stem) {
      ShownIsShort(n.stem, n.values, ks, 0);
      ShownIsShort(n.stem, n.values, ks, 128);
    }
  }

  lemma ShownIsShort(stem: Stem, values: Values, ks: Keys, first: nat)
    requires first == 0 || first == 128
    ensures !HalfTooLong(values, first) ==> !HalfTooLong(Shown(stem, values, ks), first)
  {
    if HalfTooLong(Shown(stem, values, ks), first) {
      var i :| first <= i < first + 128 && TooLong(Shown(stem, values, ks)[i]);
      assert TooLong(values[i]);
    }
  }

  lemma {:induction false} ResolvedIsAnswerable(t: Trie.Tree, path: Path, ks: Keys)
    requires Trie.Valid(t, path) && Short(t)
    ensures Answerable(Resolved(t), path, ks)
    decreases t
  {
    if t.Node? {
      forall i | 0 <= i < NODE_WIDTH ensures Answerable(Resolved(t).children[i], path + [i], ks) {
        ResolvedIsAnswerable(t.children[i], path + [i], ks);
      }
    }
  }

  /** No value longer than 32 bytes, as every successful insertion keeps it. */
  ghost predicate Short(t: Trie.Tree) {
    match t
    case Empty => true
    case Leaf(_, vs) => AllShort(vs)
    case Node(children) => forall i :: 0 <= i < |children| ==> Short(children[i])
  }

  // ----- Leaves ----------------------------------------------------------

  /** The first pass: which halves the keys of this stem fall in. */
  method HalvesAsked(stem: Stem, keys: Keys) returns (hasC1: bool, hasC2: bool)
    requires SortedKeys(keys)
    ensures hasC1 <==> RequestedHalf(keys, stem, 0)
    ensures hasC2 <==> RequestedHalf(keys, stem, 128)
  {
    hasC1, hasC2 := false, false;
    var i := 0;
    while i < |keys|
      invariant 0 <= i <= |keys|
      invariant !hasC2
      invariant hasC1 <==> RequestedHalf(keys[..i], stem, 0)
      invariant !RequestedHalf(keys[..i], stem, 128)
    {
      var key := keys[i];
      assert keys[..i + 1] == keys[..i] + [key];
      if KeyToStem(key) == stem {
        hasC1 := hasC1 || Suffix(key) < 128;
        hasC2 := hasC2 || Suffix(key) >= 128;
        if hasC2 {
          LaterSuffixes(stem, keys, i);
          break;
        }
      }
      i := i + 1;
    }
    assert !hasC2 ==> keys[..i] == keys;
  }

  /** After a key of the upper half no key of the stem falls in the lower one. */
  lemma LaterSuffixes(stem: Stem, keys: Keys, i: nat)
    requires SortedKeys(keys) && i < |keys| && KeyToStem(keys[i]) == stem && Suffix(keys[i]) >= 128
    ensures RequestedHalf(keys, stem, 0) <==> RequestedHalf(keys[..i], stem, 0)
    ensures RequestedHalf(keys, stem, 128)
  {
    forall k | k in keys && KeyToStem(k) == stem && Suffix(k) < 128 ensures k in keys[..i] {
      var j :| 0 <= j < |keys| && keys[j] == k;
      LessAtFork(k, keys[i], stem);
      assert keys[..i][j] == k;
    }
    assert keys[i] in keys;
  }

  /** The slots of a leaf that have been opened. */
  function LeafPaths(path: Path, comm: Point, c1: Point, c2: Point, any: bool, has1: bool, has2: bool): map<Path, Point> {
    (if any then map[path := comm] else map[])
    + (if has1 then map[path + [2] := c1] else map[])
    + (if has2 then map[path + [3] := c2] else map[])
  }

  lemma LeafPathsListed(path: Path, comm: Point, c1: Point, c2: Point, has1: bool, has2: bool)
    ensures Lists(LeafPaths(path, comm, c1, c2, true, has1, has2),
                  [Located(path, comm)] + (if has1 then [Located(path + [2], c1)] else []) + if has2 then [Located(path + [3], c2)] else [])
  {
    var m := LeafPaths(path, comm, c1, c2, true, has1, has2);
    var ls := [Located(path, comm)] + (if has1 then [Located(path + [2], c1)] else []) + if has2 then [Located(path + [3], c2)] else [];
    assert |path + [2]| != |path| && |path + [3]| != |path| && (path + [2])[|path|] != (path + [3])[|path|];
    forall p ensures p in m <==> exists j :: 0 <= j < |ls| && ls[j].path == p {
      assert ls[0].path == path;
      assert has1 ==> ls[1].path == path + [2];
      assert has2 ==> ls[|ls| - 1].path == path + [3];
    }
  }

  /** The second pass after the keys `done`: openings and commitments by path. */
  ghost predicate SlotsDone(n: Node, path: Path, done: Keys, ops: seq<Opening>, byPath: map<Path, Point>)
    requires n.Leaf?
  {
    && ops == SlotOpenings(n.stem, n.values, n.c1, n.c2, path, done)
    && byPath == LeafPaths(path, n.comm, n.c1, n.c2, done != [], RequestedHalf(done, n.stem, 0), RequestedHalf(done, n.stem, 128))
    && LeafAnswerable(n.stem, n.values, done)
  }

  /** Values, one status per stem, and the absence stem. */
  ghost predicate StatusesDone(n: Node, depth: nat, done: Keys, vals: seq<Value>, esses: seq<byte>, poass: seq<Stem>, added: set<Stem>)
    requires n.Leaf? && depth <= STEM_SIZE
  {
    && vals == ReadAll(n, depth, done)
    && esses == Statuses(n, depth, Stems(done))
    && (forall s: Stem :: s in added <==> s in Stems(done))
    && poass == (if done == [] || Requested(done, n.stem) then [] else [n.stem])
  }

  lemma StemsGrow(keys: Keys, i: nat)
    requires SortedKeys(keys) && i < |keys|
    ensures var before, s := Stems(keys[..i]), KeyToStem(keys[i]);
            Stems(keys[..i + 1]) == if s in before then before else before + [s]
  {
    var done, before, s := keys[..i], Stems(keys[..i]), KeyToStem(keys[i]);
    assert keys[..i + 1][..i] == done && keys[..i + 1][i] == keys[i];
    if s in before && before[|before| - 1] != s {
      StemsSorted(done);
      var j :| 0 <= j < |before| && before[j] == s;
      StemOrder(keys[i - 1], keys[i]);
      assert Less(before[j], before[|before| - 1]);
      LessTransitive(s, before[|before| - 1], s);
      LessIrreflexive(s);
    }
  }

  lemma StatusesGrow(n: Node, depth: nat, stems: seq<Stem>, s: Stem)
    requires depth <= STEM_SIZE
    ensures Statuses(n, depth, stems + [s]) == Statuses(n, depth, stems) + [PackStatus(Walk(n, depth, s).status, Walk(n, depth, s).depth)]
  {
  }

  lemma RequestedGrows(done: Keys, key: Key, stem: Stem, first: nat)
    ensures Requested(done + [key], stem) <==> Requested(done, stem) || KeyToStem(key) == stem
    ensures RequestedHalf(done + [key], stem, first) <==>
      RequestedHalf(done, stem, first) || (KeyToStem(key) == stem && first <= Suffix(key) < first + 128)
  {
  }

  lemma ReadsGrow(n: Node, depth: nat, done: Keys, key: Key)
    ensures ReadAll(n, depth, done + [key])
         == ReadAll(n, depth, done) + [match ReadAt(n, depth, key) case Answer(v) => v case _ => Nil]
  {
  }

  lemma OtherKeyStatuses(n: Node, depth: nat, done: Keys, key: Key, stems: seq<Stem>,
      vals: seq<Value>, esses: seq<byte>, poass: seq<Stem>, added: set<Stem>)
    requires n.Leaf? && depth <= STEM_SIZE && KeyToStem(key) != n.stem && StatusesDone(n, depth, done, vals, esses, poass, added)
    requires var s := KeyToStem(key); stems == Stems(done + [key]) == if s in Stems(done) then Stems(done) else Stems(done) + [s]
    ensures var s := KeyToStem(key);
            StatusesDone(n, depth, done + [key], vals + [Nil], if s in added then esses else esses + [PackStatus(EXT_ABSENT_OTHER, depth)],
                         if esses == [] then poass + [n.stem] else poass, added + {s})
  {
    hide Stems, Statuses, ReadAll, Requested;
    StemsNonEmpty(done);
    StatusesGrow(n, depth, Stems(done), KeyToStem(key));
    ReadsGrow(n, depth, done, key);
    RequestedGrows(done, key, n.stem, 0);
  }

  lemma OtherKeySlots(n: Node, path: Path, done: Keys, key: Key, ops: seq<Opening>, byPath: map<Path, Point>)
    requires n.Leaf? && SlotsDone(n, path, done, ops, byPath) && KeyToStem(key) != n.stem
    ensures SlotsDone(n, path, done + [key], ops, byPath[path := n.comm])
  {
    hide LeafPaths, RequestedHalf, HalfTooLong;
    assert (done + [key])[..|done|] == done;
    RequestedGrows(done, key, n.stem, 0);
    RequestedGrows(done, key, n.stem, 128);
    PathAgain(path, n.comm, n.c1, n.c2, done != [], RequestedHalf(done, n.stem, 0), RequestedHalf(done, n.stem, 128));
    assert ops + [] == ops;
  }

  lemma StemsNonEmpty(ks: Keys)
    ensures Stems(ks) == [] <==> ks == []
    ensures forall stem: Stem :: !Requested([], stem)
  {
  }

  lemma PathAgain(path: Path, comm: Point, c1: Point, c2: Point, any: bool, has1: bool, has2: bool)
    ensures var m := LeafPaths(path, comm, c1, c2, any, has1, has2);
            && m[path := comm] == LeafPaths(path, comm, c1, c2, true, has1, has2)
            && m[path := comm][path + [2] := c1] == LeafPaths(path, comm, c1, c2, true, true, has2)
            && m[path := comm][path + [3] := c2] == LeafPaths(path, comm, c1, c2, true, has1, true)
  {
    assert |path + [2]| != |path| && |path + [3]| != |path| && (path + [2])[|path|] != (path + [3])[|path|];
  }

  lemma OwnKeyStatuses(n: Node, depth: nat, done: Keys, key: Key, stems: seq<Stem>,
      vals: seq<Value>, esses: seq<byte>, poass: seq<Stem>, added: set<Stem>)
    requires n.Leaf? && depth <= STEM_SIZE && KeyToStem(key) == n.stem && StatusesDone(n, depth, done, vals, esses, poass, added)
    requires stems == Stems(done + [key]) == if n.stem in Stems(done) then Stems(done) else Stems(done) + [n.stem]
    ensures StatusesDone(n, depth, done + [key], vals + [n.values[Suffix(key)]],
                         if n.stem in added then esses else esses + [PackStatus(EXT_PRESENT, depth)], [], added + {n.stem})
  {
    hide Stems, Statuses, ReadAll, Requested;
    StatusesGrow(n, depth, Stems(done), n.stem);
    ReadsGrow(n, depth, done, key);
    RequestedGrows(done, key, n.stem, 0);
  }

  lemma OwnKeySlots(n: Node, path: Path, done: Keys, key: Key, ops: seq<Opening>, byPath: map<Path, Point>)
    requires n.Leaf? && SlotsDone(n, path, done, ops, byPath) && KeyToStem(key) == n.stem
    requires !HalfTooLong(n.values, Half(Suffix(key)))
    ensures var suffix := Suffix(key);
            SlotsDone(n, path, done + [key], ops + SlotPair(n.values, n.c1, n.c2, path, suffix),
                      byPath[path := n.comm][path + [2 + suffix / 128] := if suffix < 128 then n.c1 else n.c2])
  {
    hide LeafPaths, RequestedHalf, HalfTooLong, SlotPair;
    assert (done + [key])[..|done|] == done;
    RequestedGrows(done, key, n.stem, 0);
    RequestedGrows(done, key, n.stem, 128);
    PathAgain(path, n.comm, n.c1, n.c2, done != [], RequestedHalf(done, n.stem, 0), RequestedHalf(done, n.stem, 128));
  }

  /** A value that is too long in the half of a requested key makes the extraction fail. */
  lemma TooLongFails(n: Node, path: Path, ks: Keys, keys: Keys, i: nat)
    requires n.Leaf? && keys == Under(ks, path) && i < |keys| && KeyToStem(keys[i]) == n.stem
    requires HalfTooLong(n.values, Half(Suffix(keys[i])))
    ensures !Answerable(n, path, ks)
  {
    assert keys[i] in keys;
  }

  lemma ExtensionListed(stem: Stem, comm: Point, c1: Point, c2: Point, path: Path, ks: Keys)
    ensures var f := LeafPoly(stem, c1, c2);
            ExtensionOpenings(stem, comm, c1, c2, path, ks)
            == [] + [Opening(path, comm, 0, f[0], f)] + [Opening(path, comm, 1, f[1], f)]
               + (if RequestedHalf(ks, stem, 0) then [Opening(path, comm, 2, f[2], f)] else [])
               + (if RequestedHalf(ks, stem, 128) then [Opening(path, comm, 3, f[3], f)] else [])
  {
  }

  /** The state of the second pass of a leaf's extraction after the keys `done`. */
  ghost predicate SecondPass(pe: ProofElements, ext: seq<Opening>, n: Node, path: Path, depth: nat, done: Keys,
      esses: seq<byte>, poass: seq<Stem>, added: set<Stem>)
    requires n.Leaf? && depth <= STEM_SIZE
    reads pe
  {
    && pe.Valid() && pe.dedups.NotBuilt? && |ext| <= |pe.Ops()| && pe.Ops()[..|ext|] == ext
    && SlotsDone(n, path, done, pe.Ops()[|ext|..], pe.byPath)
    && StatusesDone(n, depth, done, pe.vals, esses, poass, added)
  }

  predicate NextStem(done: Keys, key: Key) {
    var before, s := Stems(done), KeyToStem(key);
    Stems(done + [key]) == if s in before then before else before + [s]
  }

  /** A key of another stem: a nil value, and the leaf's stem as absence stem if nothing else is known. */
  method VisitOther(n: Node, key: Key, depth: nat, pe: ProofElements, esses: seq<byte>, poass: seq<Stem>, added: set<Stem>,
      ghost path: Path, ghost done: Keys, ghost ext: seq<Opening>)
    returns (esses': seq<byte>, poass': seq<Stem>, added': set<Stem>)
    requires n.Leaf? && depth <= STEM_SIZE && key[..depth] == path && KeyToStem(key) != n.stem && NextStem(done, key)
    requires SecondPass(pe, ext, n, path, depth, done, esses, poass, added)
    modifies pe`byPath, pe`vals
    ensures SecondPass(pe, ext, n, path, depth, done + [key], esses', poass', added')
  {
    hide Stems, SlotsDone, StatusesDone;
    OtherKeySlots(n, path, done, key, pe.Ops()[|ext|..], pe.byPath);
    OtherKeyStatuses(n, depth, done, key, Stems(done + [key]), pe.vals, esses, poass, added);
    esses', poass' := esses, poass;
    pe.byPath := pe.byPath[key[..depth] := n.comm];
    if |esses| == 0 {
      poass' := poass' + [n.stem];
    }
    if KeyToStem(key) !in added {
      esses' := esses' + [PackStatus(EXT_ABSENT_OTHER, depth)];
    }
    added' := added + {KeyToStem(key)};
    pe.vals := pe.vals + [Nil];
  }

  method AppendPair(pe: ProofElements, c: Ref, z: byte, y0: Scalar, y1: Scalar, f: Poly)
    requires pe.Valid() && pe.dedups.NotBuilt? && z + 1 < 256
    modifies pe`cis, pe`zis, pe`yis, pe`fis
    ensures pe.Valid()
    ensures pe.Ops() == old(pe.Ops()) + [Opening(c.owner, c.point, z, y0, f)] + [Opening(c.owner, c.point, z + 1, y1, f)]
  {
    pe.Append(c, z, y0, f);
    pe.Append(c, z + 1, y1, f);
  }

  /** A key of the leaf's stem: its value and the two openings of its slot; the absence stem is cleared. */
  method VisitOwn(n: Node, key: Key, depth: nat, pe: ProofElements, esses: seq<byte>, poass: seq<Stem>, added: set<Stem>,
      ghost path: Path, ghost done: Keys, ghost ext: seq<Opening>)
    returns (esses': seq<byte>, poass': seq<Stem>, added': set<Stem>, err: bool)
    requires n.Leaf? && depth <= STEM_SIZE && key[..depth] == path && KeyToStem(key) == n.stem && NextStem(done, key)
    requires SecondPass(pe, ext, n, path, depth, done, esses, poass, added)
    modifies pe
    ensures err <==> HalfTooLong(n.values, Half(Suffix(key)))
    ensures !err ==> SecondPass(pe, ext, n, path, depth, done + [key], esses', poass', added')
  {
    hide Stems, SlotsDone, StatusesDone, SlotPair, SuffixPoly, HalfTooLong, LeafToComms, LittleEndian, Commit, Less;
    var suffix := Suffix(key);
    esses', poass', added' := esses, poass, added;
    TooLongMeans(n.values, Half(suffix));
    var suffPoly, count, failed := FillSuffixTreePoly(n.values, Half(suffix));
    if failed {
      return esses, poass, added, true;
    }
    err := false;
    ghost var ops := pe.Ops()[|ext|..];
    OwnKeySlots(n, path, done, key, ops, pe.byPath);
    OwnKeyStatuses(n, depth, done, key, Stems(done + [key]), pe.vals, esses, poass, added);
    pe.byPath := pe.byPath[key[..depth] := n.comm];
    if |poass'| > 0 {
      poass' := [];
    }
    var scomm := if suffix >= 128 then n.c2 else n.c1;
    SlotValuesOfKey(n.values, suffix);
    var z: byte := SlotIndex(suffix);
    var leaf0, leaf1 := 0, 0;
    if n.values[suffix] != Nil {
      leaf0, leaf1 := suffPoly[z], suffPoly[z + 1];
    }
    var slot := Ref(key[..depth] + [2 + suffix / 128], scomm);
    assert pe.Ops() == ext + ops;
    AppendPair(pe, slot, z, leaf0, leaf1, suffPoly);
    PairAppended(pe.Ops(), ext, ops, n.values, n.c1, n.c2, path, suffix);
    pe.vals := pe.vals + [n.values[suffix]];
    if KeyToStem(key) !in added {
      esses' := esses' + [PackStatus(EXT_PRESENT, depth)];
    }
    added' := added + {KeyToStem(key)};
    pe.byPath := pe.byPath[key[..depth] + [2 + suffix / 128] := scomm];
  }

  /** The top-level openings of a leaf. */
  method ExtensionItems(n: Node, keys: Keys, depth: nat, ghost path: Path) returns (pe: ProofElements)
    requires n.Leaf? && depth <= STEM_SIZE && keys != [] && keys[0][..depth] == path && SortedKeys(keys)
    ensures fresh(pe) && pe.Valid() && pe.dedups.NotBuilt? && pe.byPath == map[] && pe.vals == []
    ensures pe.Ops() == ExtensionOpenings(n.stem, n.comm, n.c1, n.c2, path, keys)
  {
    hide LittleEndian, ExtensionOpenings, RequestedHalf;
    pe := new ProofElements();
    var poly := LeafPoly(n.stem, n.c1, n.c2);
    var c := Ref(keys[0][..depth], n.comm);
    pe.Append(c, 0, poly[0], poly);
    pe.Append(c, 1, poly[1], poly);
    var hasC1, hasC2 := HalvesAsked(n.stem, keys);
    if hasC1 {
      pe.Append(c, 2, poly[2], poly);
    }
    if hasC2 {
      pe.Append(c, 3, poly[3], poly);
    }
    ExtensionListed(n.stem, n.comm, n.c1, n.c2, path, keys);
  }

  /** The second pass over the keys of a leaf's group. */
  method VisitKeys(n: Node, keys: Keys, depth: nat, pe: ProofElements, ghost path: Path, ghost ext: seq<Opening>)
    returns (esses: seq<byte>, poass: seq<Stem>, err: bool, ghost added: set<Stem>)
    requires n.Leaf? && depth <= STEM_SIZE && SortedKeys(keys) && forall k :: k in keys ==> k[..depth] == path
    requires SecondPass(pe, ext, n, path, depth, [], [], [], {})
    modifies pe
    ensures err <==> exists i :: 0 <= i < |keys| && KeyToStem(keys[i]) == n.stem && HalfTooLong(n.values, Half(Suffix(keys[i])))
    ensures !err ==> SecondPass(pe, ext, n, path, depth, keys, esses, poass, added)
  {
    hide Stems, SortedKeys, SecondPass, HalfTooLong;
    esses, poass, err := [], [], false;
    var addedStems: set<Stem> := {};
    assert keys[..0] == [];
    var i := 0;
    while i < |keys|
      invariant 0 <= i <= |keys| && !err
      invariant SecondPass(pe, ext, n, path, depth, keys[..i], esses, poass, addedStems)
      invariant forall j :: 0 <= j < i && KeyToStem(keys[j]) == n.stem ==> !HalfTooLong(n.values, Half(Suffix(keys[j])))
    {
      var key := keys[i];
      StemsGrow(keys, i);
      assert keys[..i + 1] == keys[..i] + [key];
      if KeyToStem(key) != n.stem {
        esses, poass, addedStems := VisitOther(n, key, depth, pe, esses, poass, addedStems, path, keys[..i], ext);
      } else {
        esses, poass, addedStems, err := VisitOwn(n, key, depth, pe, esses, poass, addedStems, path, keys[..i], ext);
        if err {
          added := {};
          return;
        }
      }
      i := i + 1;
    }
    assert keys[..i] == keys;
    added := addedStems;
  }

  method LeafProofItems(n: Node, keys: Keys, depth: nat, ghost path: Path, ghost ks: Keys)
    returns (pe: ProofElements, esses: seq<byte>, poass: seq<Stem>, err: bool)
    requires n.Leaf? && Placed(n, path) && |path| == depth && SortedKeys(ks) && keys == Under(ks, path) && keys != []
    ensures fresh(pe) && (err <==> !Answerable(n, path, ks))
    ensures !err ==> pe.Valid() && pe.Ops() == Openings(n, path, ks) && Lists(pe.byPath, PathComms(n, path, ks))
    ensures !err ==> pe.vals == ReadAll(n, depth, keys)
    ensures !err ==> esses == Statuses(n, depth, Stems(keys)) && poass == AbsenceStems(n, path, ks)
  {
    assert depth <= STEM_SIZE;
    hide Stems, SortedKeys, SecondPass, HalfTooLong, ExtensionOpenings, Answerable, Placed, Openings, PathComms, AbsenceStems, Lists;
    UnderSorted(ks, path);
    assert keys[0] in keys;
    pe := ExtensionItems(n, keys, depth, path);
    ghost var ext := pe.Ops();
    SecondPassStarts(n, path, depth, pe);
    ghost var added;
    esses, poass, err, added := VisitKeys(n, keys, depth, pe, path, ext);
    if err {
      ghost var i :| 0 <= i < |keys| && KeyToStem(keys[i]) == n.stem && HalfTooLong(n.values, Half(Suffix(keys[i])));
      TooLongFails(n, path, ks, keys, i);
    } else {
      SecondPassEnds(n, path, depth, ks, pe, ext, esses, poass, added);
    }
  }

  lemma SecondPassStarts(n: Node, path: Path, depth: nat, pe: ProofElements)
    requires n.Leaf? && depth <= STEM_SIZE && pe.Valid() && pe.dedups.NotBuilt? && pe.byPath == map[] && pe.vals == []
    ensures SecondPass(pe, pe.Ops(), n, path, depth, [], [], [], {})
  {
    assert pe.Ops()[|pe.Ops()|..] == [];
  }

  lemma TooLongMeans(values: Values, first: nat)
    requires first == 0 || first == 128
    ensures HalfTooLong(values, first) <==> exists i :: first <= i < first + 128 && TooLong(values[i])
  {
  }

  /** A slot opens to the two scalars of its value; zero for a nil one. */
  lemma SlotValuesOfKey(values: Values, suffix: byte)
    ensures var f, z := SuffixPoly(values, Half(suffix)), SlotIndex(suffix);
            z + 1 < 256 && f[z] == LeafToComms(values[suffix]).0 && f[z + 1] == LeafToComms(values[suffix]).1
    ensures values[suffix] == Nil ==> LeafToComms(values[suffix]) == (0, 0)
  {
    hide LittleEndian;
    var z := SlotIndex(suffix);
    assert z / 2 == suffix - Half(suffix) && (z + 1) / 2 == suffix - Half(suffix) && z % 2 == 0;
  }

  lemma PairAppended(all: seq<Opening>, ext: seq<Opening>, ops: seq<Opening>, values: Values, c1: Point, c2: Point, path: Path, suffix: byte)
    requires |ext| <= |all|
    requires var f, z, owner := SuffixPoly(values, Half(suffix)), SlotIndex(suffix), path + [2 + suffix / 128];
      var c := if suffix >= 128 then c2 else c1;
      z + 1 < 256 && all == ext + ops + [Opening(owner, c, z, f[z], f)] + [Opening(owner, c, z + 1, f[z + 1], f)]
    ensures all[..|ext|] == ext && all[|ext|..] == ops + SlotPair(values, c1, c2, path, suffix)
  {
  }

  lemma SecondPassEnds(n: Node, path: Path, depth: nat, ks: Keys, pe: ProofElements, ext: seq<Opening>,
      esses: seq<byte>, poass: seq<Stem>, added: set<Stem>)
    requires n.Leaf? && Placed(n, path) && |path| == depth && Under(ks, path) != []
    requires ext == ExtensionOpenings(n.stem, n.comm, n.c1, n.c2, path, Under(ks, path))
    requires SecondPass(pe, ext, n, path, depth, Under(ks, path), esses, poass, added)
    ensures pe.Valid() && pe.Ops() == Openings(n, path, ks) && Lists(pe.byPath, PathComms(n, path, ks))
    ensures pe.vals == ReadAll(n, depth, Under(ks, path)) && esses == Statuses(n, depth, Stems(Under(ks, path)))
    ensures poass == AbsenceStems(n, path, ks) && Answerable(n, path, ks)
  {
    hide ExtensionOpenings, SlotOpenings, RequestedHalf, Requested, LeafPaths, Lists, LeafAnswerable, Stems, ReadAll, Statuses, Under;
    RequestedUnder(ks, path, n.stem, 0);
    RequestedUnder(ks, path, n.stem, 128);
    LeafPathsListed(path, n.comm, n.c1, n.c2, RequestedHalf(ks, n.stem, 0), RequestedHalf(ks, n.stem, 128));
    assert pe.Ops() == ext + pe.Ops()[|ext|..];
  }

  // ----- Stubs -----------------------------------------------------------

  /** A stub is walked like a leaf without values; a key of its own stem cannot be answered. */
  method StubProofItems(n: Node, keys: Keys, depth: nat, ghost path: Path, ghost ks: Keys)
    returns (pe: ProofElements?, esses: seq<byte>, poass: seq<Stem>, err: bool)
    requires n.Stub? && Placed(n, path) && |path| == depth && SortedKeys(ks) && keys == Under(ks, path) && keys != []
    ensures err <==> !Answerable(n, path, ks)
    ensures !err ==> pe != null && fresh(pe) && pe.Valid() && pe.Ops() == Openings(n, path, ks) && Lists(pe.byPath, PathComms(n, path, ks))
    ensures !err ==> pe.vals == ReadAll(n, depth, keys)
    ensures !err ==> esses == Statuses(n, depth, Stems(keys)) && poass == AbsenceStems(n, path, ks)
  {
    assert depth <= STEM_SIZE;
    UnderSorted(ks, path);
    EitherHalf(keys, n.stem);
    hide Answerable, Openings, PathComms, AbsenceStems, Lists, Statuses, ReadAll, Stems, Under, Requested, RequestedHalf;
    StubFails(n, path, ks);
    var hasC1, hasC2 := HalvesAsked(n.stem, keys);
    if hasC1 || hasC2 {
      return null, [], [], true;
    }
    StubAsLeaf(n, path, depth, ks);
    pe, esses, poass, err := LeafProofItems(Leaf(n.stem, EmptyValues(), n.comm, IDENTITY, IDENTITY), keys, depth, path, ks);
  }

  lemma StubFails(n: Node, path: Path, ks: Keys)
    requires n.Stub?
    ensures Answerable(n, path, ks) <==> !Requested(Under(ks, path), n.stem)
  {
  }

  lemma EitherHalf(ks: Keys, stem: Stem)
    ensures Requested(ks, stem) <==> RequestedHalf(ks, stem, 0) || RequestedHalf(ks, stem, 128)
  {
  }

  lemma StubAsLeaf(n: Node, path: Path, depth: nat, ks: Keys)
    requires n.Stub? && Placed(n, path) && |path| == depth <= STEM_SIZE && !Requested(Under(ks, path), n.stem)
    ensures var leaf := Leaf(n.stem, EmptyValues(), n.comm, IDENTITY, IDENTITY);
            && Placed(leaf, path) && Answerable(leaf, path, ks)
            && Openings(leaf, path, ks) == Openings(n, path, ks) && PathComms(leaf, path, ks) == PathComms(n, path, ks)
            && ReadAll(leaf, depth, Under(ks, path)) == ReadAll(n, depth, Under(ks, path))
            && Statuses(leaf, depth, Stems(Under(ks, path))) == Statuses(n, depth, Stems(Under(ks, path)))
            && AbsenceStems(leaf, path, ks) == AbsenceStems(n, path, ks)
  {
    var leaf, under := Leaf(n.stem, EmptyValues(), n.comm, IDENTITY, IDENTITY), Under(ks, path);
    StubCommsAsLeaf(n, leaf, path, ks);
    NotRequestedReads(leaf, n, depth, under);
    StemsAreRequested(under, n.stem);
    NotRequestedStatuses(leaf, n, depth, Stems(under));
    RequestedUnder(ks, path, n.stem, 0);
    hide Openings, PathComms, ReadAll, Statuses, Stems, Under, Requested;
  }

  lemma StubCommsAsLeaf(n: Node, leaf: Node, path: Path, ks: Keys)
    requires n.Stub? && leaf == Leaf(n.stem, EmptyValues(), n.comm, IDENTITY, IDENTITY)
    requires Placed(n, path) && !Requested(Under(ks, path), n.stem)
    ensures Placed(leaf, path) && Openings(leaf, path, ks) == Openings(n, path, ks)
    ensures PathComms(leaf, path, ks) == PathComms(n, path, ks)
  {
    var under := Under(ks, path);
    RequestedUnder(ks, path, n.stem, 0);
    RequestedUnder(ks, path, n.stem, 128);
    EitherHalf(under, n.stem);
    NoSlots(n.stem, EmptyValues(), IDENTITY, IDENTITY, path, under);
    EitherHalf([], n.stem);
    StemsNonEmpty([]);
    hide SlotOpenings, Under, Requested, RequestedHalf;
    assert ExtensionOpenings(n.stem, n.comm, IDENTITY, IDENTITY, path, under)
        == ExtensionOpenings(n.stem, n.comm, IDENTITY, IDENTITY, path, []);
  }

  lemma NotRequestedStatuses(leaf: Node, n: Node, depth: nat, stems: seq<Stem>)
    requires n.Stub? && leaf.Leaf? && leaf.stem == n.stem && depth <= STEM_SIZE && n.stem !in stems
    ensures Statuses(leaf, depth, stems) == Statuses(n, depth, stems)
  {
    hide PackStatus;
    forall j | 0 <= j < |stems| ensures Statuses(leaf, depth, stems)[j] == Statuses(n, depth, stems)[j] {
      assert stems[j] in stems;
    }
  }

  lemma NotRequestedReads(leaf: Node, n: Node, depth: nat, ks: Keys)
    requires n.Stub? && leaf.Leaf? && leaf.stem == n.stem && !Requested(ks, n.stem)
    ensures ReadAll(leaf, depth, ks) == ReadAll(n, depth, ks)
  {
    forall j | 0 <= j < |ks| ensures KeyToStem(ks[j]) != n.stem {
      assert ks[j] in ks;
    }
  }

  // ----- Internal nodes --------------------------------------------------

  ghost predicate NoneTouched(ks: Keys, path: Path, lo: nat, hi: nat)
    requires hi <= NODE_WIDTH
  {
    forall j :: lo <= j < hi ==> !Touched(ks, path + [j])
  }

  /** Children no key leads to add nothing. */
  lemma {:induction false} SkipUntouched(n: Node, path: Path, ks: Keys, lo: nat, hi: nat)
    requires n.Internal? && Placed(n, path) && SortedKeys(ks) && lo <= hi <= NODE_WIDTH && NoneTouched(ks, path, lo, hi)
    ensures OwnOpenings(n.children, n.comm, path, ks, hi) == OwnOpenings(n.children, n.comm, path, ks, lo)
    ensures MergedBelow(n, path, ks, hi) == MergedBelow(n, path, ks, lo)
    ensures CommsBelow(n, path, ks, hi) == CommsBelow(n, path, ks, lo)
    ensures AbsenceBelow(n, path, ks, hi) == AbsenceBelow(n, path, ks, lo)
    ensures UnderBelow(ks, path, hi) == UnderBelow(ks, path, lo)
    ensures Groups(ks, path, hi) == Groups(ks, path, lo)
    decreases hi
  {
    if lo < hi {
      SkipUntouched(n, path, ks, lo, hi - 1);
      UnderSplits(ks, path, hi - 1);
      SomeKey(ks, path + [hi - 1]);
      hide Touched, Under, UnderBelow, Placed, SortedKeys, Openings, PathComms, AbsenceStems;
      assert !Touched(ks, path + [hi - 1]);
      assert UnderBelow(ks, path, hi - 1) + [] == UnderBelow(ks, path, hi - 1);
    }
  }

  lemma {:induction false} GroupsArePrefix(ks: Keys, path: Path, i: nat, j: nat)
    requires i <= j <= NODE_WIDTH
    ensures Groups(ks, path, i) <= Groups(ks, path, j)
    decreases j
  {
    if i < j {
      GroupsArePrefix(ks, path, i, j - 1);
    }
  }

  /** The next group belongs to the next child that a key leads to. */
  lemma {:induction false} NextGroup(ks: Keys, path: Path, i: nat)
    requires |path| < STEM_SIZE && i <= NODE_WIDTH && |Groups(ks, path, i)| < |Groups(ks, path, NODE_WIDTH)|
    ensures var g := Groups(ks, path, NODE_WIDTH)[|Groups(ks, path, i)|];
            && g != [] && i <= g[0][|path|] && g == Under(ks, path + [g[0][|path|]])
            && Touched(ks, path + [g[0][|path|]]) && NoneTouched(ks, path, i, g[0][|path|])
    decreases NODE_WIDTH - i
  {
    hide Groups, Touched, Under;
    GroupsArePrefix(ks, path, i, NODE_WIDTH);
    assert i < NODE_WIDTH;
    GroupsStep(ks, path, i);
    GroupsArePrefix(ks, path, i + 1, NODE_WIDTH);
    SomeKey(ks, path + [i]);
    if Touched(ks, path + [i]) {
      var g := Under(ks, path + [i]);
      assert g[0] in g;
      KeyStep(g[0], path, i);
    } else {
      NextGroup(ks, path, i + 1);
    }
  }

  lemma NoGroupLeft(ks: Keys, path: Path, i: nat)
    requires i <= NODE_WIDTH && |Groups(ks, path, i)| == |Groups(ks, path, NODE_WIDTH)|
    ensures NoneTouched(ks, path, i, NODE_WIDTH)
  {
    forall j | i <= j < NODE_WIDTH ensures !Touched(ks, path + [j]) {
      GroupsArePrefix(ks, path, i, j);
      GroupsStep(ks, path, j);
      GroupsArePrefix(ks, path, j + 1, NODE_WIDTH);
    }
  }

  /** The opening of the node's commitment for one group. */
  method OwnItem(n: Node, group: Keys, fi: Poly, depth: nat, pe: ProofElements, ghost path: Path, ghost ks: Keys, ghost i: nat)
    returns (ghost next: nat)
    requires n.Internal? && Placed(n, path) && |path| == depth && SortedKeys(ks) && i <= NODE_WIDTH && fi == Scalars(n.children)
    requires |Groups(ks, path, i)| < |Groups(ks, path, NODE_WIDTH)| && group == Groups(ks, path, NODE_WIDTH)[|Groups(ks, path, i)|]
    requires pe.Valid() && pe.dedups.NotBuilt? && pe.Ops() == OwnOpenings(n.children, n.comm, path, ks, i)
    modifies pe`cis, pe`zis, pe`yis, pe`fis, pe`byPath
    ensures pe.Valid() && next <= NODE_WIDTH && |Groups(ks, path, next)| == |Groups(ks, path, i)| + 1
    ensures pe.Ops() == OwnOpenings(n.children, n.comm, path, ks, next) && pe.byPath == old(pe.byPath)[path := n.comm]
  {
    assert depth < STEM_SIZE && |n.children| == NODE_WIDTH;
    hide Placed, Groups, NoneTouched, Touched, SortedKeys, Under, OwnOpenings, Scalars;
    NextGroup(ks, path, i);
    var childIdx := group[0][depth];
    SkipUntouched(n, path, ks, i, childIdx);
    GroupsStep(ks, path, childIdx);
    GroupPath(ks, path, childIdx);
    OwnStep(n.children, n.comm, path, ks, childIdx);
    pe.Append(Ref(group[0][..depth], n.comm), childIdx, fi[childIdx], fi);
    pe.byPath := pe.byPath[group[0][..depth] := n.comm];
    next := childIdx as int + 1;
  }

  /** One opening of the node's commitment per group, and its own commitment by path. */
  method OwnItems(n: Node, groups: seq<Keys>, depth: nat, ghost path: Path, ghost ks: Keys) returns (pe: ProofElements)
    requires n.Internal? && Placed(n, path) && |path| == depth && SortedKeys(ks)
    requires groups == Groups(ks, path, NODE_WIDTH) && groups != []
    ensures fresh(pe) && pe.Valid() && pe.dedups.NotBuilt? && pe.vals == [] && pe.byPath == map[path := n.comm]
    ensures pe.Ops() == OwnOpenings(n.children, n.comm, path, ks, NODE_WIDTH)
  {
    assert |n.children| == NODE_WIDTH;
    hide Placed, Groups, NoneTouched, Touched, SortedKeys, OwnOpenings, Scalars;
    pe := new ProofElements();
    var fi := Scalars(n.children);
    ghost var i: nat := 0;
    var g := 0;
    NoGroupsAtFirst(n.children, n.comm, ks, path);
    while g < |groups|
      invariant 0 <= g <= |groups| && i <= NODE_WIDTH && |Groups(ks, path, i)| == g
      invariant fresh(pe) && pe.Valid() && pe.dedups.NotBuilt? && pe.vals == []
      invariant pe.byPath == if g == 0 then map[] else map[path := n.comm]
      invariant pe.Ops() == OwnOpenings(n.children, n.comm, path, ks, i)
    {
      i := OwnItem(n, groups[g], fi, depth, pe, path, ks, i);
      g := g + 1;
    }
    NoGroupLeft(ks, path, i);
    SkipUntouched(n, path, ks, i, NODE_WIDTH);
  }

  lemma NoGroupsAtFirst(children: seq<Node>, comm: Point, ks: Keys, path: Path)
    requires |children| == NODE_WIDTH
    ensures Groups(ks, path, 0) == [] && OwnOpenings(children, comm, path, ks, 0) == []
  {
  }

  lemma OwnStep(children: seq<Node>, comm: Point, path: Path, ks: Keys, i: byte)
    requires |children| == NODE_WIDTH && Touched(ks, path + [i])
    ensures OwnOpenings(children, comm, path, ks, i + 1)
         == OwnOpenings(children, comm, path, ks, i) + [Opening(path, comm, i, Scalars(children)[i], Scalars(children))]
  {
    hide Touched, Scalars;
  }

  lemma GroupPath(ks: Keys, path: Path, i: byte)
    requires Under(ks, path + [i]) != []
    ensures var k := Under(ks, path + [i])[0]; |path| < |k| && k[..|path|] == path
  {
    var k := Under(ks, path + [i])[0];
    assert k in Under(ks, path + [i]);
    assert k[..|path| + 1][..|path|] == k[..|path|];
  }

  /** What the loop over the keys of an empty slot has collected for the keys `done`. */
  ghost predicate EmptyCollected(done: Keys, depth: nat, esses: seq<byte>, vals: seq<Value>, added: set<Stem>)
    requires depth <= STEM_SIZE
  {
    && esses == Statuses(Empty, depth, Stems(done)) && vals == ReadAll(Empty, depth, done)
    && forall s: Stem :: s in added <==> s in Stems(done)
  }

  lemma EmptySlotStep(group: Keys, depth: nat, i: nat, esses: seq<byte>, vals: seq<Value>, added: set<Stem>)
    requires depth <= STEM_SIZE && SortedKeys(group) && i < |group| && EmptyCollected(group[..i], depth, esses, vals, added)
    ensures var s := KeyToStem(group[i]);
            EmptyCollected(group[..i + 1], depth, if s in added then esses else esses + [PackStatus(EXT_ABSENT_EMPTY, depth)],
                           vals + [Nil], added + {s})
  {
    hide Stems, SortedKeys, Statuses, ReadAll, PackStatus;
    StemsGrow(group, i);
    assert group[..i + 1] == group[..i] + [group[i]];
    StatusesGrow(Empty, depth, Stems(group[..i]), KeyToStem(group[i]));
    ReadsGrow(Empty, depth, group[..i], group[i]);
  }

  lemma NothingEmpty(depth: nat)
    requires depth <= STEM_SIZE
    ensures EmptyCollected([], depth, [], [], {})
  {
    StemsNonEmpty([]);
  }

  /** An empty child: one status per stem, nil values. */
  method EmptySlotItems(group: Keys, depth: nat) returns (esses: seq<byte>, vals: seq<Value>)
    requires depth < STEM_SIZE && SortedKeys(group)
    ensures esses == Statuses(Empty, depth + 1, Stems(group)) && vals == ReadAll(Empty, depth + 1, group)
  {
    hide Stems, SortedKeys, PackStatus, Statuses, ReadAll;
    esses, vals := [], [];
    var addedStems: set<Stem> := {};
    NothingEmpty(depth + 1);
    assert group[..0] == [];
    var i := 0;
    while i < |group|
      invariant 0 <= i <= |group| && EmptyCollected(group[..i], depth + 1, esses, vals, addedStems)
    {
      EmptySlotStep(group, depth + 1, i, esses, vals, addedStems);
      assert KeyToStem(group[i]) in addedStems ==> addedStems + {KeyToStem(group[i])} == addedStems;
      if KeyToStem(group[i]) !in addedStems {
        esses := esses + [PackStatus(EXT_ABSENT_EMPTY, depth + 1)];
        addedStems := addedStems + {KeyToStem(group[i])};
      }
      vals := vals + [Nil];
      i := i + 1;
    }
    assert group[..i] == group;
  }

  /** How the lists of a node grow by those of a child. */
  lemma ListsOfChild(n: Node, path: Path, ks: Keys, b: byte)
    requires n.Internal? && Placed(n, path) && SortedKeys(ks) && Touched(ks, path + [b])
    ensures var q, c := path + [b], n.children[b];
            && MergedBelow(n, path, ks, b + 1) == MergeOps(MergedBelow(n, path, ks, b), Openings(c, q, ks))
            && CommsBelow(n, path, ks, b + 1) == CommsBelow(n, path, ks, b) + PathComms(c, q, ks)
            && AbsenceBelow(n, path, ks, b + 1) == AbsenceBelow(n, path, ks, b) + AbsenceStems(c, q, ks)
  {
    hide Openings, PathComms, AbsenceStems, Touched, SortedKeys;
  }

  lemma ReadsOfChild(n: Node, path: Path, depth: nat, ks: Keys, b: byte)
    requires n.Internal? && Placed(n, path) && SortedKeys(ks) && |path| == depth < STEM_SIZE
    ensures var q, c := path + [b], n.children[b];
            && ReadAll(n, depth, UnderBelow(ks, path, b + 1))
               == ReadAll(n, depth, UnderBelow(ks, path, b)) + ReadAll(c, depth + 1, Under(ks, q))
            && Statuses(n, depth, Stems(UnderBelow(ks, path, b + 1)))
               == Statuses(n, depth, Stems(UnderBelow(ks, path, b))) + Statuses(c, depth + 1, Stems(Under(ks, q)))
  {
    hide Under, UnderBelow, Stems, SortedKeys, ReadAt, Walk, ReadAll, Statuses;
    var q, c := path + [b], n.children[b];
    UnderSplits(ks, path, b);
    StemsSplit(ks, path, b);
    var a, u := UnderBelow(ks, path, b), Under(ks, q);
    forall j | 0 <= j < |u| ensures ReadAt(n, depth, u[j]) == ReadAt(c, depth + 1, u[j]) {
      assert u[j] in u;
      KeyStep(u[j], path, b);
      OneStep(n, depth, b, u[j], KeyToStem(u[j]));
    }
    forall j | 0 <= j < |Stems(u)| ensures Walk(n, depth, Stems(u)[j]) == Walk(c, depth + 1, Stems(u)[j]) {
      var s := Stems(u)[j];
      StemsUnderPrefix(ks, q, s);
      assert s[..depth + 1] == q;
      OneStep(n, depth, b, MakeKey(s, 0), s);
    }
    ReadsJoin(n, c, depth, a, u);
    StatusesJoin(n, c, depth, Stems(a), Stems(u));
  }

  lemma OneStep(n: Node, depth: nat, b: byte, key: Key, s: Stem)
    requires n.Internal? && depth < STEM_SIZE && |n.children| == NODE_WIDTH && key[depth] == b && s[depth] == b
    ensures ReadAt(n, depth, key) == ReadAt(n.children[b], depth + 1, key) && Walk(n, depth, s) == Walk(n.children[b], depth + 1, s)
  {
  }

  lemma ReadsJoin(n: Node, c: Node, depth: nat, a: Keys, u: Keys)
    requires forall j :: 0 <= j < |u| ==> ReadAt(n, depth, u[j]) == ReadAt(c, depth + 1, u[j])
    ensures ReadAll(n, depth, a + u) == ReadAll(n, depth, a) + ReadAll(c, depth + 1, u)
  {
    hide ReadAt;
  }

  lemma StatusesJoin(n: Node, c: Node, depth: nat, a: seq<Stem>, u: seq<Stem>)
    requires depth < STEM_SIZE && forall j :: 0 <= j < |u| ==> Walk(n, depth, u[j]) == Walk(c, depth + 1, u[j])
    ensures Statuses(n, depth, a + u) == Statuses(n, depth, a) + Statuses(c, depth + 1, u)
  {
    hide Walk;
  }

  lemma StemsUnderPrefix(ks: Keys, path: Path, s: Stem)
    requires |path| <= STEM_SIZE && s in Stems(Under(ks, path))
    ensures HasPrefix(s, path)
  {
    StemsAreRequested(Under(ks, path), s);
    var k :| k in Under(ks, path) && KeyToStem(k) == s;
    assert k[..|path|] == s[..|path|];
  }

  /** Commitments by path of a child join those of its node. */
  lemma ListsJoin(mine: map<Path, Point>, theirs: map<Path, Point>, a: seq<Located>, b: seq<Located>)
    requires Lists(mine, a) && Lists(theirs, b) && StrictlySorted(Paths(a + b))
    ensures Lists(theirs + mine, a + b)
  {
    var m, ls := theirs + mine, a + b;
    forall p ensures p in m <==> exists j :: 0 <= j < |ls| && ls[j].path == p {
      if p in mine {
        var j :| 0 <= j < |a| && a[j].path == p;
        assert ls[j].path == p;
      } else if p in theirs {
        var j :| 0 <= j < |b| && b[j].path == p;
        assert ls[|a| + j].path == p;
      }
      if exists j :: 0 <= j < |ls| && ls[j].path == p {
        var j :| 0 <= j < |ls| && ls[j].path == p;
        assert if j < |a| then a[j].path == p else b[j - |a|].path == p;
      }
    }
    forall j | 0 <= j < |ls| ensures m[ls[j].path] == ls[j].point {
      if j >= |a| && ls[j].path in mine {
        var k :| 0 <= k < |a| && a[k].path == ls[j].path;
        assert Paths(ls)[k] == Paths(ls)[j];
        LessIrreflexive(Paths(ls)[k]);
      }
    }
  }

  ghost predicate AnsweredBelow(n: Node, path: Path, ks: Keys, i: nat)
    requires n.Internal? && |n.children| == NODE_WIDTH && i <= NODE_WIDTH
  {
    forall j :: 0 <= j < i && Touched(ks, path + [j]) ==> Answerable(n.children[j], path + [j], ks)
  }

  ghost predicate OpsBelow(n: Node, path: Path, ks: Keys, i: nat, ops: seq<Opening>, byPath: map<Path, Point>, poass: seq<Stem>)
    requires n.Internal? && Placed(n, path) && i <= NODE_WIDTH
  {
    && ops == MergedBelow(n, path, ks, i)
    && Lists(byPath, [Located(path, n.comm)] + CommsBelow(n, path, ks, i))
    && poass == AbsenceBelow(n, path, ks, i)
  }

  ghost predicate ReadsBelow(n: Node, path: Path, depth: nat, ks: Keys, i: nat, vals: seq<Value>, esses: seq<byte>)
    requires |path| < STEM_SIZE && depth <= STEM_SIZE && i <= NODE_WIDTH
  {
    && vals == ReadAll(n, depth, UnderBelow(ks, path, i))
    && esses == Statuses(n, depth, Stems(UnderBelow(ks, path, i)))
  }

  /** What the loop over the children's groups has collected before child `i`. */
  ghost predicate Collected(n: Node, path: Path, depth: nat, ks: Keys, i: nat, ops: seq<Opening>, byPath: map<Path, Point>,
      vals: seq<Value>, esses: seq<byte>, poass: seq<Stem>)
    requires n.Internal? && Placed(n, path) && |path| == depth && i <= NODE_WIDTH
  {
    && OpsBelow(n, path, ks, i, ops, byPath, poass)
    && ReadsBelow(n, path, depth, ks, i, vals, esses)
    && AnsweredBelow(n, path, ks, i)
  }

  /** The result of an extraction for the subtree `n`. */
  ghost predicate Extracted(n: Node, path: Path, depth: nat, ks: Keys, ops: seq<Opening>, byPath: map<Path, Point>,
      vals: seq<Value>, esses: seq<byte>, poass: seq<Stem>)
    requires Placed(n, path) && |path| == depth <= STEM_SIZE
  {
    && ops == Openings(n, path, ks) && Lists(byPath, PathComms(n, path, ks))
    && vals == ReadAll(n, depth, Under(ks, path))
    && esses == Statuses(n, depth, Stems(Under(ks, path))) && poass == AbsenceStems(n, path, ks)
    && Answerable(n, path, ks)
  }

  lemma NothingCollected(n: Node, path: Path, depth: nat, ks: Keys)
    requires n.Internal? && Placed(n, path) && |path| == depth
    ensures Collected(n, path, depth, ks, 0, OwnOpenings(n.children, n.comm, path, ks, NODE_WIDTH), map[path := n.comm], [], [], [])
  {
    NothingRead(n, path, depth, ks);
    hide UnderBelow, Stems, OwnOpenings, ReadsBelow, Under, Touched, Answerable;
    var ls := [Located(path, n.comm)] + CommsBelow(n, path, ks, 0);
    assert ls == [Located(path, n.comm)] && ls[0].path == path;
  }

  lemma NothingRead(n: Node, path: Path, depth: nat, ks: Keys)
    requires n.Internal? && Placed(n, path) && |path| == depth
    ensures ReadsBelow(n, path, depth, ks, 0, [], [])
  {
    UnderBelowAll(ks, path);
    StemsNonEmpty([]);
    hide UnderBelow, Stems, Placed;
  }

  lemma SkipCollected(n: Node, path: Path, depth: nat, ks: Keys, lo: nat, hi: nat, ops: seq<Opening>, byPath: map<Path, Point>,
      vals: seq<Value>, esses: seq<byte>, poass: seq<Stem>)
    requires n.Internal? && Placed(n, path) && |path| == depth && SortedKeys(ks) && lo <= hi <= NODE_WIDTH && NoneTouched(ks, path, lo, hi)
    requires Collected(n, path, depth, ks, lo, ops, byPath, vals, esses, poass)
    ensures Collected(n, path, depth, ks, hi, ops, byPath, vals, esses, poass)
  {
    SkipUntouched(n, path, ks, lo, hi);
    hide UnderBelow, Stems, MergedBelow, CommsBelow, AbsenceBelow, Touched, Lists, Answerable, Placed, SortedKeys;
  }

  lemma AllCollected(n: Node, path: Path, depth: nat, ks: Keys, ops: seq<Opening>, byPath: map<Path, Point>,
      vals: seq<Value>, esses: seq<byte>, poass: seq<Stem>)
    requires n.Internal? && Placed(n, path) && |path| == depth && Collected(n, path, depth, ks, NODE_WIDTH, ops, byPath, vals, esses, poass)
    ensures Extracted(n, path, depth, ks, ops, byPath, vals, esses, poass)
  {
    UnderBelowAll(ks, path);
    hide UnderBelow, Under, Stems, MergedBelow, CommsBelow, AbsenceBelow, Touched, Lists, Placed;
  }

  /** The elements of a child are merged into those of the node. */
  lemma ChildCollected(n: Node, path: Path, depth: nat, ks: Keys, b: byte,
      ops: seq<Opening>, byPath: map<Path, Point>, vals: seq<Value>, esses: seq<byte>, poass: seq<Stem>,
      ops': seq<Opening>, byPath': map<Path, Point>, vals': seq<Value>, esses': seq<byte>, poass': seq<Stem>)
    requires n.Internal? && Placed(n, path) && |path| == depth && SortedKeys(ks) && Touched(ks, path + [b])
    requires Collected(n, path, depth, ks, b, ops, byPath, vals, esses, poass)
    requires Extracted(n.children[b], path + [b], depth + 1, ks, ops', byPath', vals', esses', poass')
    ensures Collected(n, path, depth, ks, b + 1, MergeOps(ops, ops'), byPath' + byPath, vals + vals', esses + esses', poass + poass')
  {
    hide OpsBelow, ReadsBelow, Touched, SortedKeys, Answerable;
    ChildOps(n, path, ks, b, ops, byPath, poass, ops', byPath', poass');
    ChildReads(n, path, depth, ks, b, vals, esses, vals', esses');
  }

  lemma ChildReads(n: Node, path: Path, depth: nat, ks: Keys, b: byte, vals: seq<Value>, esses: seq<byte>, vals': seq<Value>, esses': seq<byte>)
    requires n.Internal? && Placed(n, path) && SortedKeys(ks) && |path| == depth < STEM_SIZE
    requires ReadsBelow(n, path, depth, ks, b, vals, esses)
    requires vals' == ReadAll(n.children[b], depth + 1, Under(ks, path + [b]))
    requires esses' == Statuses(n.children[b], depth + 1, Stems(Under(ks, path + [b])))
    ensures ReadsBelow(n, path, depth, ks, b + 1, vals + vals', esses + esses')
  {
    hide ReadAll, Statuses, Under, UnderBelow, Stems, SortedKeys;
    ReadsOfChild(n, path, depth, ks, b);
  }

  lemma ChildOps(n: Node, path: Path, ks: Keys, b: byte, ops: seq<Opening>, byPath: map<Path, Point>, poass: seq<Stem>,
      ops': seq<Opening>, byPath': map<Path, Point>, poass': seq<Stem>)
    requires n.Internal? && Placed(n, path) && SortedKeys(ks) && Touched(ks, path + [b])
    requires OpsBelow(n, path, ks, b, ops, byPath, poass)
    requires ops' == Openings(n.children[b], path + [b], ks) && Lists(byPath', PathComms(n.children[b], path + [b], ks))
    requires poass' == AbsenceStems(n.children[b], path + [b], ks)
    ensures OpsBelow(n, path, ks, b + 1, MergeOps(ops, ops'), byPath' + byPath, poass + poass')
  {
    hide Openings, MergedBelow, CommsBelow, PathComms, AbsenceStems, AbsenceBelow, Lists, Touched, SortedKeys, Less, MergeOps;
    ListsOfChild(n, path, ks, b);
    ListedBelow(n, path, ks, b, byPath, byPath');
  }

  lemma ListedBelow(n: Node, path: Path, ks: Keys, b: byte, mine: map<Path, Point>, theirs: map<Path, Point>)
    requires n.Internal? && Placed(n, path) && SortedKeys(ks) && Touched(ks, path + [b])
    requires Lists(mine, [Located(path, n.comm)] + CommsBelow(n, path, ks, b))
    requires Lists(theirs, PathComms(n.children[b], path + [b], ks))
    ensures Lists(theirs + mine, [Located(path, n.comm)] + CommsBelow(n, path, ks, b + 1))
  {
    hide CommsBelow, PathComms, Lists, Touched, SortedKeys, Less, StrictlySorted;
    ListsOfChild(n, path, ks, b);
    CommsBelowSorted(n, path, ks, b + 1);
    var top, below, here := [Located(path, n.comm)], CommsBelow(n, path, ks, b), PathComms(n.children[b], path + [b], ks);
    ParentFirst(below + here, path, n.comm);
    assert top + (below + here) == (top + below) + here;
    ListsJoin(mine, theirs, top + below, here);
  }

  /** An empty child has no openings, no commitments and no absence stems. */
  lemma EmptyExtracted(n: Node, path: Path, depth: nat, ks: Keys)
    requires n.Empty? && |path| == depth <= STEM_SIZE
    ensures Extracted(n, path, depth, ks, [], map[], ReadAll(Empty, depth, Under(ks, path)), Statuses(Empty, depth, Stems(Under(ks, path))), [])
  {
  }

  lemma NothingMerged(ops: seq<Opening>, m: map<Path, Point>, poass: seq<Stem>)
    ensures MergeOps(ops, []) == ops && map[] + m == m && poass + [] == poass
  {
  }

  /** A child that cannot be answered stops the extraction. */
  lemma ChildFails(n: Node, path: Path, ks: Keys, b: byte)
    requires n.Internal? && Touched(ks, path + [b]) && |n.children| == NODE_WIDTH && !Answerable(n.children[b], path + [b], ks)
    ensures !Answerable(n, path, ks)
  {
  }

  lemma UnknownFails(n: Node, path: Path, ks: Keys)
    requires n.Unknown?
    ensures !Answerable(n, path, ks)
  {
  }

  // ----- Internal nodes: the loop over the children -----------------------

  ghost predicate InProgress(n: Node, path: Path, depth: nat, ks: Keys, i: nat, pe: ProofElements, esses: seq<byte>, poass: seq<Stem>)
    requires n.Internal? && Placed(n, path) && |path| == depth && i <= NODE_WIDTH
    reads pe
  {
    pe.Valid() && Collected(n, path, depth, ks, i, pe.Ops(), pe.byPath, pe.vals, esses, poass)
  }

  lemma PlacedChildren(n: Node, path: Path)
    requires n.Internal? && Placed(n, path)
    ensures |path| < STEM_SIZE && |n.children| == NODE_WIDTH && forall i: byte :: Placed(n.children[i], path + [i])
  {
  }

  /** One group: the elements of the child it leads to. */
  method ChildItems(n: Node, group: Keys, depth: nat, pe: ProofElements, esses: seq<byte>, poass: seq<Stem>,
      ghost path: Path, ghost ks: Keys, ghost i: nat)
    returns (esses': seq<byte>, poass': seq<Stem>, err: bool, ghost next: nat)
    requires n.Internal? && Placed(n, path) && |path| == depth && SortedKeys(ks) && i <= NODE_WIDTH
    requires |Groups(ks, path, i)| < |Groups(ks, path, NODE_WIDTH)| && group == Groups(ks, path, NODE_WIDTH)[|Groups(ks, path, i)|]
    requires InProgress(n, path, depth, ks, i, pe, esses, poass)
    modifies pe
    ensures err ==> !Answerable(n, path, ks)
    ensures !err ==> next <= NODE_WIDTH && |Groups(ks, path, next)| == |Groups(ks, path, i)| + 1
    ensures !err ==> InProgress(n, path, depth, ks, next, pe, esses', poass')
    decreases n, 1
  {
    hide Groups, NoneTouched, Touched, SortedKeys, Placed, Answerable, Under, Stems, ReadAll, Statuses, Collected, Extracted;
    PlacedChildren(n, path);
    NextGroup(ks, path, i);
    var childIdx := group[0][depth];
    ghost var q := path + [childIdx];
    next := childIdx as int + 1;
    esses', poass', err := esses, poass, false;
    SkipCollected(n, path, depth, ks, i, childIdx, pe.Ops(), pe.byPath, pe.vals, esses, poass);
    SkipUntouched(n, path, ks, i, childIdx);
    GroupsStep(ks, path, childIdx);
    var child := n.children[childIdx];
    if child.Unknown? {
      UnknownFails(child, q, ks);
      ChildFails(n, path, ks, childIdx);
      return esses, poass, true, next;
    }
    if child.Empty? {
      esses' := AddEmptyChild(n, group, depth, pe, esses, poass, path, ks, childIdx);
    } else {
      esses', poass', err := AddChild(n, group, depth, pe, esses, poass, path, ks, childIdx);
      if err {
        ChildFails(n, path, ks, childIdx);
      }
    }
  }

  /** An empty child adds statuses and nil values. */
  method AddEmptyChild(n: Node, group: Keys, depth: nat, pe: ProofElements, esses: seq<byte>, poass: seq<Stem>,
      ghost path: Path, ghost ks: Keys, ghost b: byte)
    returns (esses': seq<byte>)
    requires n.Internal? && Placed(n, path) && |path| == depth && SortedKeys(ks) && Touched(ks, path + [b])
    requires group == Under(ks, path + [b]) && n.children[b].Empty? && InProgress(n, path, depth, ks, b, pe, esses, poass)
    modifies pe`vals
    ensures InProgress(n, path, depth, ks, b + 1, pe, esses', poass)
  {
    hide Touched, SortedKeys, Placed, Answerable, Under, Stems, ReadAll, Statuses, Collected, Extracted, MergeOps, Less, HasPrefix;
    PlacedChildren(n, path);
    UnderSorted(ks, path + [b]);
    var es, vals := EmptySlotItems(group, depth);
    EmptyExtracted(n.children[b], path + [b], depth + 1, ks);
    ChildCollected(n, path, depth, ks, b, pe.Ops(), pe.byPath, pe.vals, esses, poass, [], map[], vals, es, []);
    NothingMerged(pe.Ops(), pe.byPath, poass);
    esses' := esses + es;
    pe.vals := pe.vals + vals;
  }

  /** Any other child hands up its own elements, which are merged. */
  method AddChild(n: Node, group: Keys, depth: nat, pe: ProofElements, esses: seq<byte>, poass: seq<Stem>,
      ghost path: Path, ghost ks: Keys, b: byte)
    returns (esses': seq<byte>, poass': seq<Stem>, err: bool)
    requires n.Internal? && Placed(n, path) && |path| == depth && SortedKeys(ks) && Touched(ks, path + [b])
    requires group == Under(ks, path + [b]) && group != [] && !n.children[b].Empty?
    requires InProgress(n, path, depth, ks, b, pe, esses, poass)
    modifies pe
    ensures err <==> !Answerable(n.children[b], path + [b], ks)
    ensures !err ==> InProgress(n, path, depth, ks, b + 1, pe, esses', poass')
    decreases n, 0
  {
    hide Touched, SortedKeys, Placed, Answerable, Under, Stems, ReadAll, Statuses, Collected, Extracted, MergeOps, Less, HasPrefix;
    PlacedChildren(n, path);
    var pec, es, other;
    pec, es, other, err := GetProofItems(n.children[b], group, depth + 1, path + [b], ks);
    esses', poass' := esses, poass;
    if err {
      return;
    }
    ChildCollected(n, path, depth, ks, b, pe.Ops(), pe.byPath, pe.vals, esses, poass, pec.Ops(), pec.byPath, pec.vals, es, other);
    pe.Merge(pec);
    poass', esses' := poass + other, esses + es;
  }

  method InternalProofItems(n: Node, keys: Keys, depth: nat, ghost path: Path, ghost ks: Keys)
    returns (pe: ProofElements, esses: seq<byte>, poass: seq<Stem>, err: bool)
    requires n.Internal? && Placed(n, path) && |path| == depth && SortedKeys(ks) && keys == Under(ks, path) && keys != []
    ensures fresh(pe) && (err <==> !Answerable(n, path, ks))
    ensures !err ==> pe.Valid() && Extracted(n, path, depth, ks, pe.Ops(), pe.byPath, pe.vals, esses, poass)
    decreases n, 2
  {
    assert depth < STEM_SIZE;
    hide Groups, NoneTouched, Touched, SortedKeys, Placed, Answerable, Under, Collected, Extracted, Runs, OwnOpenings;
    UnderBelowAll(ks, path);
    RunsAreGroups(ks, path, NODE_WIDTH);
    NoGroupsAtFirst(n.children, n.comm, ks, path);
    var groups := GroupKeys(keys, depth);
    pe := OwnItems(n, groups, depth, path, ks);
    NothingCollected(n, path, depth, ks);
    esses, poass, err := [], [], false;
    ghost var i: nat := 0;
    var g := 0;
    while g < |groups|
      invariant 0 <= g <= |groups| && i <= NODE_WIDTH && |Groups(ks, path, i)| == g
      invariant fresh(pe) && !err && InProgress(n, path, depth, ks, i, pe, esses, poass)
    {
      esses, poass, err, i := ChildItems(n, groups[g], depth, pe, esses, poass, path, ks, i);
      if err {
        return;
      }
      g := g + 1;
    }
    NoGroupLeft(ks, path, i);
    SkipCollected(n, path, depth, ks, i, NODE_WIDTH, pe.Ops(), pe.byPath, pe.vals, esses, poass);
    AllCollected(n, path, depth, ks, pe.Ops(), pe.byPath, pe.vals, esses, poass);
    ExtractedFacts(n, path, depth, ks, pe.Ops(), pe.byPath, pe.vals, esses, poass);
  }

  lemma ExtractedFacts(n: Node, path: Path, depth: nat, ks: Keys, ops: seq<Opening>, byPath: map<Path, Point>,
      vals: seq<Value>, esses: seq<byte>, poass: seq<Stem>)
    requires Placed(n, path) && |path| == depth <= STEM_SIZE && Extracted(n, path, depth, ks, ops, byPath, vals, esses, poass)
    ensures Answerable(n, path, ks)
  {
  }

  /** GetProofItems of any node that keys lead to: the lists of a proof, or an error when a key
      cannot be answered. */
  method GetProofItems(n: Node, keys: Keys, depth: nat, ghost path: Path, ghost ks: Keys)
    returns (pe: ProofElements?, esses: seq<byte>, poass: seq<Stem>, err: bool)
    requires !n.Empty? && Placed(n, path) && |path| == depth <= STEM_SIZE && SortedKeys(ks) && keys == Under(ks, path) && keys != []
    ensures err <==> !Answerable(n, path, ks)
    ensures !err ==> pe != null && fresh(pe) && pe.Valid()
    ensures !err ==> Extracted(n, path, depth, ks, pe.Ops(), pe.byPath, pe.vals, esses, poass)
    decreases n, 3
  {
    hide SortedKeys, Placed, Answerable, Under, Openings, PathComms, AbsenceStems, Lists, Stems, ReadAll, Statuses;
    match n {
      case Unknown =>
        UnknownFails(n, path, ks);
        return null, [], [], true;
      case Leaf(_, _, _, _, _) =>
        pe, esses, poass, err := LeafProofItems(n, keys, depth, path, ks);
      case Stub(_, _) =>
        pe, esses, poass, err := StubProofItems(n, keys, depth, path, ks);
      case Internal(_, _) =>
        pe, esses, poass, err := InternalProofItems(n, keys, depth, path, ks);
    }
  }
}
