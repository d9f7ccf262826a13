/** Making a proof and rebuilding the tree from it, as the source runs them. */
module Proofs {
  import opened Pedersen
  import opened VerkleTypes
  import opened ByteOrder
  import opened Multiproof
  import opened Stateless
  import opened ProofPlan
  import opened ProofItems
  import opened Extraction
  import opened Rebuild
  import opened RoundTrip
  import Trie

  // ----- Sorting the keys ------------------------------------------------

  /** sort.Sort on the key list. */
  method SortKeys(keys: Keys) returns (sorted: Keys)
    ensures SortedKeys(sorted) && multiset(sorted) == multiset(keys) && |sorted| == |keys|
    ensures SortedKeys(keys) ==> sorted == keys
  {
    sorted := [];
    var i := 0;
    while i < |keys|
      invariant 0 <= i <= |keys| && |sorted| == i
      invariant SortedKeys(sorted) && multiset(sorted) == multiset(keys[..i])
      invariant SortedKeys(keys) ==> sorted == keys[..i]
    {
      sorted := InsertKey(sorted, keys[i]);
      assert keys[..i + 1] == keys[..i] + [keys[i]];
      i := i + 1;
    }
    assert keys[..i] == keys;
  }

  method InsertKey(s: Keys, x: Key) returns (t: Keys)
    requires SortedKeys(s)
    ensures SortedKeys(t) && multiset(t) == multiset(s) + multiset{x} && |t| == |s| + 1
    ensures s == [] || !Less(x, s[|s| - 1]) ==> t == s + [x]
  {
    var k := |s|;
    while k > 0 && Less(x, s[k - 1])
      invariant 0 <= k <= |s|
      invariant forall i :: k <= i < |s| ==> Less(x, s[i])
    {
      k := k - 1;
    }
    t := s[..k] + [x] + s[k..];
    assert s == s[..k] + s[k..];
    forall i, j | 0 <= i < j < |t| ensures !Less(t[j], t[i]) {
      OrderedAround(s, x, k, i, j);
    }
  }

  lemma OrderedAround(s: Keys, x: Key, k: nat, i: nat, j: nat)
    requires SortedKeys(s) && k <= |s| && i < j <= |s|
    requires forall m :: k <= m < |s| ==> Less(x, s[m])
    requires k > 0 ==> !Less(x, s[k - 1])
    ensures var t := s[..k] + [x] + s[k..]; !Less(t[j], t[i])
  {
    var t := s[..k] + [x] + s[k..];
    assert t[i] == if i < k then s[i] else if i == k then x else s[i - 1];
    assert t[j] == if j < k then s[j] else if j == k then x else s[j - 1];
    if Less(t[j], t[i]) {
      if j == k {
        if i < k - 1 {
          LessTotal(s[i], s[k - 1]);
          if Less(s[i], s[k - 1]) {
            LessTransitive(x, s[i], s[k - 1]);
          }
        }
      } else if i == k {
        LessTransitive(t[j], x, t[j]);
        LessIrreflexive(t[j]);
      }
    }
  }

  // ----- Making a proof --------------------------------------------------

  datatype MaybeTree = NoTree | Tree(node: Node)

  function ContentOf(v: Value): seq<byte> {
    if v.Nil? then [] else v.bytes
  }

  /** The post-value of a key: the new value where it differs from the old one, nil elsewhere. */
  function PostValue(before: Value, after: Value): Value {
    if ContentOf(before) == ContentOf(after) then Nil else after
  }

  /** A post-value is nil exactly when the two reads have the same bytes or the new one is nil; otherwise it is
      the new read. */
  lemma PostValueMeans(before: Value, after: Value)
    ensures PostValue(before, after) == Nil
       <==> after == Nil || (if before == Nil then [] else before.bytes) == after.bytes
    ensures PostValue(before, after) != Nil ==> PostValue(before, after) == after
  {
  }

  function PostValues(root: Node, post: MaybeTree, ks: Keys): (r: seq<Value>)
    ensures |r| == |ks|
  {
    if post.NoTree? then seq(|ks|, _ => Nil)
    else seq(|ks|, j requires 0 <= j < |ks| => PostValue(ReadAll(root, 0, ks)[j], ReadAll(post.node, 0, ks)[j]))
  }

  predicate PostReadable(post: MaybeTree, ks: Keys) {
    post.Tree? ==> forall k :: k in ks ==> ReadAt(post.node, 0, k).Answer?
  }

  /** The non-empty paths, each once. */
  method CollectPaths(byPath: map<Path, Point>) returns (paths: seq<Path>)
    ensures forall p :: p in paths <==> p in byPath && p != []
    ensures forall i, j :: 0 <= i < j < |paths| ==> paths[i] != paths[j]
  {
    paths := [];
    var todo := byPath.Keys;
    while todo != {}
      invariant todo <= byPath.Keys
      invariant forall p :: p in paths <==> p in byPath && p !in todo && p != []
      invariant forall i, j :: 0 <= i < j < |paths| ==> paths[i] != paths[j]
    {
      var path :| path in todo;
      if |path| > 0 {
        paths := paths + [path];
      }
      todo := todo - {path};
    }
  }

  /** The commitments, sorted by path and without the root's. */
  method SortedCommitments(byPath: map<Path, Point>, ghost ls: seq<Located>) returns (cs: seq<Point>)
    requires Lists(byPath, ls) && StrictlySorted(Paths(ls)) && ls != [] && ls[0].path == []
    ensures cs == Points(NotRoot(ls))
  {
    hide Lists, StrictlySorted, NotRoot;
    var paths := CollectPaths(byPath);
    paths := SortStrings(paths);
    PathsAreListed(byPath, ls, paths);
    cs := [];
    var i := 0;
    while i < |paths|
      invariant 0 <= i <= |paths| && |cs| == i
      invariant forall j :: 0 <= j < i ==> cs[j] == byPath[paths[j]]
    {
      cs := cs + [byPath[paths[i]]];
      i := i + 1;
    }
  }

  lemma PathsAreListed(byPath: map<Path, Point>, ls: seq<Located>, paths: seq<Path>)
    requires Lists(byPath, ls) && StrictlySorted(Paths(ls)) && ls != [] && ls[0].path == []
    requires StrictlySorted(paths) && forall p :: p in paths <==> p in byPath && p != []
    ensures paths == Paths(NotRoot(ls))
    ensures forall j :: 0 <= j < |paths| ==> paths[j] in byPath && byPath[paths[j]] == NotRoot(ls)[j].point
  {
    var rest := NotRoot(ls);
    forall i, j | 0 <= i < j < |rest| ensures Less(Paths(rest)[i], Paths(rest)[j]) {
      assert Paths(ls)[i + 1] == Paths(rest)[i] && Paths(ls)[j + 1] == Paths(rest)[j];
    }
    hide Less;
    forall p ensures p in paths <==> p in Paths(rest) {
      if p in Paths(rest) {
        var j :| 0 <= j < |rest| && Paths(rest)[j] == p;
        assert ls[j + 1].path == p && Less(Paths(ls)[0], Paths(ls)[j + 1]);
        LessIrreflexive(p);
      }
      if p in paths {
        var j :| 0 <= j < |ls| && ls[j].path == p;
        assert j > 0;
        assert Paths(rest)[j - 1] == p;
      }
    }
    SortedListIsUnique(paths, Paths(rest));
    forall j | 0 <= j < |paths| ensures paths[j] in byPath && byPath[paths[j]] == rest[j].point {
      assert ls[j + 1].path == paths[j];
    }
  }

  /** The post-values, read from the post-tree when there is one. */
  method ReadPostValues(root: Node, post: MaybeTree, ks: Keys, vals: seq<Value>) returns (postvals: seq<Value>, err: bool)
    requires vals == ReadAll(root, 0, ks)
    ensures err <==> !PostReadable(post, ks)
    ensures !err ==> postvals == PostValues(root, post, ks)
  {
    err := false;
    postvals := seq(|ks|, _ => Nil);
    if post.NoTree? {
      return;
    }
    var i := 0;
    while i < |ks|
      invariant 0 <= i <= |ks| && |postvals| == |ks|
      invariant forall j :: 0 <= j < i ==> ReadAt(post.node, 0, ks[j]).Answer?
      invariant forall j :: 0 <= j < i ==> postvals[j] == PostValue(vals[j], ReadAll(post.node, 0, ks)[j])
      invariant forall j :: i <= j < |ks| ==> postvals[j] == Nil
    {
      var val := ReadAt(post.node, 0, ks[i]);
      if !val.Answer? {
        assert ks[i] in ks;
        return postvals, true;
      }
      if ContentOf(vals[i]) != ContentOf(val.value) {
        postvals := postvals[i := val.value];
      }
      i := i + 1;
    }
  }

  /** What a proof is made of, extracted from a root for sorted keys. */
  ghost predicate RootElements(root: Node, ks: Keys, pe: ProofElements, es: seq<byte>, poas: seq<Stem>)
    requires root.Internal? && Placed(root, [])
    reads pe
  {
    && pe.Valid() && pe.Ops() == Openings(root, [], ks) && pe.vals == ReadAll(root, 0, ks)
    && es == Statuses(root, 0, Stems(ks)) && poas == AbsenceStems(root, [], ks)
    && Lists(pe.byPath, PathComms(root, [], ks)) && PathComms(root, [], ks) != [] && PathComms(root, [], ks)[0].path == []
  }

  /** getProofElementsFromTree: for making a proof and for verifying one. The keys are sorted first. */
  method GetProofElementsFromTree(root: Node, post: MaybeTree, keys: Keys)
    returns (sorted: Keys, pe: ProofElements?, es: seq<byte>, poas: seq<Stem>, postvals: seq<Value>, err: bool)
    requires root.Internal? && Placed(root, [])
    ensures SortedKeys(sorted) && multiset(sorted) == multiset(keys) && (SortedKeys(keys) ==> sorted == keys)
    ensures err <==> keys == [] || !Answerable(root, [], sorted) || !PostReadable(post, sorted)
    ensures !err ==> pe != null && fresh(pe) && RootElements(root, sorted, pe, es, poas)
    ensures !err ==> postvals == PostValues(root, post, sorted)
  {
    hide Answerable, Less, Openings, PathComms, AbsenceStems, Statuses, Stems, Extracted, SortedKeys, Placed, PostReadable, PostValues, Lists, Under;
    sorted := SortKeys(keys);
    pe, es, poas, postvals := null, [], [], [];
    if |keys| == 0 {
      err := true;
      return;
    }
    UnderEverything(sorted);
    pe, es, poas, err := GetProofItems(root, sorted, 0, [], sorted);
    if err {
      return;
    }
    RootExtracted(root, sorted, pe, es, poas);
    postvals, err := ReadPostValues(root, post, sorted, pe.vals);
  }

  /** MakeVerkleMultiProof up to the multipoint argument, whose input are the parallel lists of `pe`. */
  method MakeVerkleMultiProof(root: Node, post: MaybeTree, keys: Keys) returns (proof: Proof, pe: ProofElements?, err: bool)
    requires root.Internal? && Placed(root, [])
    ensures SortedKeys(proof.keys) && multiset(proof.keys) == multiset(keys)
    ensures err <==> keys == [] || !Answerable(root, [], proof.keys) || !PostReadable(post, proof.keys)
    ensures !err ==> proof == ProofOf(root, proof.keys, PostValues(root, post, proof.keys))
    ensures !err ==> pe != null && pe.Valid() && pe.Ops() == Openings(root, [], proof.keys)
  {
    hide Answerable, Less, Openings, PathComms, AbsenceStems, Statuses, Stems, SortedKeys, Placed, PostReadable, PostValues, Lists;
    var sorted, es, poas, postvals;
    sorted, pe, es, poas, postvals, err := GetProofElementsFromTree(root, post, keys);
    proof := Proof([], [], [], sorted, [], []);
    if err {
      return;
    }
    PathCommsSorted(root, [], sorted);
    var cis := SortedCommitments(pe.byPath, PathComms(root, [], sorted));
    proof := Proof(es, cis, poas, sorted, pe.vals, postvals);
  }

  lemma RootExtracted(root: Node, ks: Keys, pe: ProofElements, es: seq<byte>, poas: seq<Stem>)
    requires root.Internal? && Placed(root, []) && Under(ks, []) == ks
    requires pe.Valid() && Extracted(root, [], 0, ks, pe.Ops(), pe.byPath, pe.vals, es, poas)
    ensures RootElements(root, ks, pe, es, poas)
  {
  }

  // ----- Rebuilding the tree ---------------------------------------------

  method CollectStems(keys: Keys) returns (stems: seq<Stem>)
    ensures stems == Stems(keys)
  {
    stems := [];
    var i := 0;
    while i < |keys|
      invariant 0 <= i <= |keys| && stems == Stems(keys[..i])
    {
      var stem := KeyToStem(keys[i]);
      assert keys[..i + 1][..i] == keys[..i];
      if |stems| == 0 || stems[|stems| - 1] != stem {
        stems := stems + [stem];
      }
      i := i + 1;
    }
    assert keys[..i] == keys;
  }

  method IsSorted(s: seq<Stem>) returns (sorted: bool)
    ensures sorted <==> NowhereDescending(s)
  {
    var i := |s| - 1;
    while i > 0
      invariant -1 <= i <= |s| - 1
      invariant forall j :: i < j < |s| && j > 0 ==> !Less(s[j], s[j - 1])
    {
      if Less(s[i], s[i - 1]) {
        return false;
      }
      i := i - 1;
    }
    return true;
  }

  method CollectPresent(stems: seq<Stem>, ess: seq<byte>) returns (present: set<Path>)
    requires |stems| == |ess|
    ensures present == PresentPaths(stems, ess)
  {
    present := {};
    var i := 0;
    while i < |ess|
      invariant 0 <= i <= |ess|
      invariant forall q :: q in present <==> exists j :: 0 <= j < i && StatusOf(ess[j]) == EXT_PRESENT && stems[j][..DepthOf(ess[j])] == q
    {
      if StatusOf(ess[i]) == EXT_PRESENT {
        present := present + {stems[i][..DepthOf(ess[i])]};
      }
      i := i + 1;
    }
  }

  method StemHasValue(ks: Keys, pre: seq<Value>, stem: Stem) returns (has: bool)
    requires |ks| == |pre|
    ensures has <==> HasValue(ks, pre, stem)
  {
    var j := 0;
    while j < |ks|
      invariant 0 <= j <= |ks|
      invariant forall i :: 0 <= i < j ==> !(HasPrefix(ks[i], stem) && pre[i] != Nil)
    {
      if HasPrefix(ks[j], stem) && pre[j] != Nil {
        return true;
      }
      j := j + 1;
    }
    return false;
  }

  method PresentInfo(ks: Keys, pre: seq<Value>, stem: Stem) returns (info: StemInfo)
    requires |ks| == |pre|
    ensures info == Present(ks, pre, stem)
  {
    var values: map<byte, Value> := map[];
    var hasC1, hasC2 := false, false;
    var j := 0;
    while j < |ks|
      invariant 0 <= j <= |ks|
      invariant values == AskedValues(ks[..j], pre[..j], stem)
      invariant hasC1 <==> RequestedHalf(ks[..j], stem, 0)
      invariant hasC2 <==> RequestedHalf(ks[..j], stem, 128)
    {
      assert ks[..j + 1] == ks[..j] + [ks[j]] && ks[..j + 1][..j] == ks[..j] && pre[..j + 1][..j] == pre[..j];
      RequestedGrows(ks[..j], ks[j], stem, 0);
      RequestedGrows(ks[..j], ks[j], stem, 128);
      if KeyToStem(ks[j]) == stem {
        values := values[Suffix(ks[j]) := pre[j]];
        hasC1 := hasC1 || Suffix(ks[j]) < 128;
        hasC2 := hasC2 || Suffix(ks[j]) >= 128;
      }
      j := j + 1;
    }
    assert ks[..j] == ks && pre[..j] == pre;
    info := StemInfo(EXT_PRESENT, stem, hasC1, hasC2, values);
  }

  /** The loop over the extension statuses. */
  method AssignStems(stems: seq<Stem>, ess: seq<byte>, present: set<Path>, poaStems: seq<Stem>, ks: Keys, pre: seq<Value>)
    returns (r: Result<Plan>)
    requires |ks| == |pre| && |stems| == |ess|
    ensures r == AssignAll(Plan(map[], [], poaStems), stems, ess, present, ks, pre)
  {
    hide HasValue, Present;
    ghost var p := Plan(map[], [], poaStems);
    var info: map<Path, StemInfo>, paths: seq<Path>, poas := map[], [], poaStems;
    var i := 0;
    while i < |ess|
      invariant 0 <= i <= |ess|
      invariant AssignAll(p, stems[..i], ess[..i], present, ks, pre) == Ok(Plan(info, paths, poas))
    {
      var stem, es := stems[i], ess[i];
      assert stems[..i + 1][..i] == stems[..i] && ess[..i + 1][..i] == ess[..i];
      AssignStops(p, stems, ess, present, ks, pre, i + 1);
      var path := stem[..DepthOf(es)];
      var si;
      if StatusOf(es) == EXT_ABSENT_EMPTY || StatusOf(es) == EXT_ABSENT_OTHER {
        var has := StemHasValue(ks, pre, stem);
        if has {
          return Err(AbsentStemHasValue);
        }
        if StatusOf(es) == EXT_ABSENT_EMPTY {
          si := AbsentEmpty();
        } else {
          if path in present || path in info {
            i := i + 1;
            continue;
          }
          if |poas| == 0 {
            return Err(NoAbsenceStemLeft);
          }
          si := AbsentOther(poas[0]);
          poas := poas[1..];
        }
      } else if StatusOf(es) == EXT_PRESENT {
        si := PresentInfo(ks, pre, stem);
      } else {
        return Err(InvalidStatus);
      }
      info := info[path := si];
      paths := paths + [path];
      i := i + 1;
    }
    assert stems[..i] == stems && ess[..i] == ess;
    r := Ok(Plan(info, paths, poas));
  }

  /** An error is final. */
  lemma {:induction false} AssignStops(p: Plan, stems: seq<Stem>, ess: seq<byte>, present: set<Path>, ks: Keys, pre: seq<Value>, i: nat)
    requires |ks| == |pre| && |stems| == |ess| && Consistent(p) && i <= |stems|
    ensures var r := AssignAll(p, stems[..i], ess[..i], present, ks, pre);
            r.Err? ==> AssignAll(p, stems, ess, present, ks, pre) == r
    decreases |stems|
  {
    if i < |stems| {
      var n := |stems| - 1;
      AssignStops(p, stems[..n], ess[..n], present, ks, pre, i);
      assert stems[..n][..i] == stems[..i] && ess[..n][..i] == ess[..i];
    } else {
      assert stems[..i] == stems && ess[..i] == ess;
    }
  }

  method ValuesOf(ks: Keys, pre: seq<Value>, stem: seq<byte>) returns (values: Values)
    requires |ks| == |pre|
    ensures values == SlotValues(ks, pre, stem)
  {
    values := EmptyValues();
    var i := 0;
    while i < |ks|
      invariant 0 <= i <= |ks| && values == SlotValues(ks[..i], pre[..i], stem)
    {
      assert ks[..i + 1][..i] == ks[..i] && pre[..i + 1][..i] == pre[..i];
      if pre[i].Len() != 0 {
        if KeyToStem(ks[i]) == stem {
          values := values[Suffix(ks[i]) := pre[i]];
        }
      }
      i := i + 1;
    }
    assert ks[..i] == ks && pre[..i] == pre;
  }

  /** The loop of CreatePath calls at the root. */
  method BuildPaths(plan: Plan, rootC: Point, cs: seq<Point>, ks: Keys, pre: seq<Value>) returns (r: Result<Built>)
    requires |ks| == |pre| && Consistent(plan)
    ensures r == CreateAll(Fresh(rootC), 0, PlanEntries(plan), cs, ks, pre)
  {
    hide CreatePath, SlotValues;
    ghost var es := PlanEntries(plan);
    var root, comms := Fresh(rootC), cs;
    var i := 0;
    while i < |plan.paths|
      invariant 0 <= i <= |plan.paths| && Wide(root)
      invariant CreateAll(Fresh(rootC), 0, es[..i], cs, ks, pre) == Ok(Built(root, comms))
    {
      var p := plan.paths[i];
      assert p in plan.paths && es[..i + 1][..i] == es[..i] && es[i].path[0..] == p;
      var values := ValuesOf(ks, pre, plan.info[p].stem);
      CreateStops(Fresh(rootC), es, cs, ks, pre, i + 1);
      var step := CreatePath(root, p, plan.info[p], comms, values);
      if step.Err? {
        return step;
      }
      root, comms := step.value.node, step.value.comms;
      i := i + 1;
    }
    assert es[..i] == es;
    r := Ok(Built(root, comms));
  }

  lemma {:induction false} CreateStops(n: Node, es: seq<Entry>, comms: seq<Point>, ks: Keys, pre: seq<Value>, i: nat)
    requires Wide(n) && |ks| == |pre| && i <= |es|
    ensures var r := CreateAll(n, 0, es[..i], comms, ks, pre);
            r.Err? ==> CreateAll(n, 0, es, comms, ks, pre) == r
    decreases |es|
  {
    if i < |es| {
      CreateStops(n, es[..|es| - 1], comms, ks, pre, i);
      assert es[..|es| - 1][..i] == es[..i];
    } else {
      assert es[..i] == es;
    }
  }

  method PreStateTreeFromProof(proof: Proof, rootC: Point) returns (r: Result<Built>)
    ensures r == TreeFromProof(proof, rootC)
  {
    hide AssignAll, CreateAll, Stems, PresentPaths, NowhereDescending;
    if |proof.keys| != |proof.preValues| {
      return Err(CountMismatch);
    }
    if |proof.keys| != |proof.postValues| {
      return Err(CountMismatch);
    }
    var stems := CollectStems(proof.keys);
    if |stems| != |proof.extStatus| {
      return Err(CountMismatch);
    }
    var sorted := IsSorted(proof.poaStems);
    if !sorted {
      return Err(UnsortedAbsenceStems);
    }
    var present := CollectPresent(stems, proof.extStatus);
    var plan := AssignStems(stems, proof.extStatus, present, proof.poaStems, proof.keys, proof.preValues);
    if plan.Err? {
      return Err(plan.error);
    }
    if |plan.value.poas| != 0 {
      return Err(UnusedAbsenceStems);
    }
    r := BuildPaths(plan.value, rootC, proof.cs, proof.keys, proof.preValues);
  }

  /** The commitments, points and values the multipoint argument is checked against. */
  function Claims(ops: seq<Opening>): (r: seq<(Point, byte, Scalar)>)
    ensures |r| == |ops|
  {
    seq(|ops|, i requires 0 <= i < |ops| => (ops[i].c, ops[i].z, ops[i].y))
  }

  lemma SameClaimsAgree(a: seq<Opening>, b: seq<Opening>)
    requires SameClaims(a, b)
    ensures Claims(a) == Claims(b)
  {
  }

  /** The verifier: the tree is rebuilt from the proof, and the elements are extracted from it as the prover
      extracted them from the original. */
  method VerifierElements(proof: Proof, rootC: Point, ghost t: Trie.Tree, ghost post: seq<Value>) returns (pe: ProofElements?, err: bool)
    requires t.Node? && Trie.Valid(t, []) && Trie.Commitment(t) == rootC
    requires SortedKeys(proof.keys) && proof.keys != [] && |post| == |proof.keys|
    requires Placed(Resolved(t), []) && proof == ProofOf(Resolved(t), proof.keys, post) && Answerable(Resolved(t), [], proof.keys)
    ensures !err && pe != null && pe.Valid() && Claims(pe.Ops()) == Claims(Openings(Resolved(t), [], proof.keys))
    ensures pe.vals == proof.preValues
  {
    ghost var root := Resolved(t);
    ResolvedIsFull(t);
    RootFacts(root, proof.keys);
    PartialIsAnswerable(root, [], proof.keys);
    PartialIsPlaced(root, [], proof.keys);
    assert root.Internal? && root.comm == rootC;
    assert Partial(root, [], proof.keys).Internal?;
    hide Resolved, Partial, Answerable, Openings, Touched, TreeFromProof, Placed, SortedKeys, Full, SameClaims, Claims;
    TreeIsRebuilt(root, proof.keys, post);
    StatelessRoundTrip(t, proof.keys, post);
    var built := PreStateTreeFromProof(proof, rootC);
    var sorted, es, poas, postvals;
    sorted, pe, es, poas, postvals, err := GetProofElementsFromTree(built.value.node, NoTree, proof.keys);
    SameClaimsAgree(Openings(root, [], proof.keys), pe.Ops());
  }

  /** On a committed tree without over-long values no key list fails. */
  lemma SucceedsOnShort(t: Trie.Tree, ks: Keys)
    requires Trie.Valid(t, []) && Short(t)
    ensures Answerable(Resolved(t), [], ks) && PostReadable(NoTree, ks)
    ensures PostValues(Resolved(t), NoTree, ks) == seq(|ks|, _ => Nil)
  {
    ResolvedIsAnswerable(t, [], ks);
  }
}
