/** The loop over the extension statuses recovers, path by path, what each path leads to. */
module Planning {
  import opened VerkleTypes
  import opened ByteOrder
  import opened Multiproof
  import opened Stateless
  import opened ProofPlan
  import opened Rebuild
  import opened Building

  lemma StatusesConcat(n: Node, a: seq<Stem>, b: seq<Stem>)
    ensures Statuses(n, 0, a + b) == Statuses(n, 0, a) + Statuses(n, 0, b)
  {
    hide Walk, PackStatus, StatusOf, DepthOf, Statuses;
    var x, y := Statuses(n, 0, a + b), Statuses(n, 0, a) + Statuses(n, 0, b);
    forall j | 0 <= j < |x| ensures x[j] == y[j] {
      assert (a + b)[j] == if j < |a| then a[j] else b[j - |a|];
      StatusByte(n, 0, a + b, j);
      if j < |a| {
        StatusByte(n, 0, a, j);
      } else {
        StatusByte(n, 0, b, j - |a|);
      }
    }
  }

  lemma StatusesPrefix(n: Node, stems: seq<Stem>)
    requires stems != []
    ensures var m := |stems| - 1; Statuses(n, 0, stems)[..m] == Statuses(n, 0, stems[..m])
  {
    hide Walk, PackStatus, StatusOf, DepthOf, Statuses;
    var m := |stems| - 1;
    forall j | 0 <= j < m ensures Statuses(n, 0, stems)[j] == Statuses(n, 0, stems[..m])[j] {
      assert stems[..m][j] == stems[j];
      StatusByte(n, 0, stems, j);
      StatusByte(n, 0, stems[..m], j);
    }
  }

  /** Walks along stems with prefix `path` get to `n`. */
  ghost predicate Reaches(root: Node, n: Node, path: Path) {
    |path| <= STEM_SIZE && forall s: Stem :: HasPrefix(s, path) ==> Walk(root, 0, s) == Walk(n, |path|, s)
  }

  lemma ReachesBelow(root: Node, n: Node, path: Path, i: byte)
    requires n.Internal? && Placed(n, path) && Reaches(root, n, path)
    ensures Reaches(root, n.children[i], path + [i])
  {
    forall s: Stem | HasPrefix(s, path + [i]) ensures Walk(root, 0, s) == Walk(n.children[i], |path| + 1, s) {
      assert s[..|path| + 1][..|path|] == s[..|path|] && s[..|path| + 1][|path|] == i;
    }
  }

  function PresentIn(root: Node, ks: Keys): set<Path> {
    PresentPaths(Stems(ks), Statuses(root, 0, Stems(ks)))
  }

  /** A leaf's path is known as present exactly when the leaf's stem was asked for. */
  lemma PresentAtLeaf(root: Node, n: Node, path: Path, ks: Keys)
    requires n.Leaf? && Placed(n, path) && Reaches(root, n, path)
    ensures path in PresentIn(root, ks) <==> Requested(ks, n.stem)
  {
    var stems, ess := Stems(ks), Statuses(root, 0, Stems(ks));
    StemsAreRequested(ks, n.stem);
    hide Stems, Requested, Statuses, Walk;
    forall i | 0 <= i < |stems|
      ensures StatusOf(ess[i]) == EXT_PRESENT && stems[i][..DepthOf(ess[i])] == path <==> stems[i] == n.stem
    {
      PresentThere(root, n, path, stems[i], ess[i]);
    }
    assert path in PresentIn(root, ks) <==> exists i :: 0 <= i < |stems| && stems[i] == n.stem;
  }

  lemma PresentThere(root: Node, n: Node, path: Path, s: Stem, es: byte)
    requires n.Leaf? && Placed(n, path) && Reaches(root, n, path)
    requires StatusOf(es) == Walk(root, 0, s).status && DepthOf(es) == Walk(root, 0, s).depth
    ensures StatusOf(es) == EXT_PRESENT && s[..DepthOf(es)] == path <==> s == n.stem
  {
    if s[..DepthOf(es)] == path || s == n.stem {
      assert HasPrefix(s, path);
      assert Walk(root, 0, s) == Walk(n, |path|, s);
    }
  }

  function EntryPaths(es: seq<Entry>): (r: seq<Path>)
    ensures |r| == |es| && forall j :: 0 <= j < |es| ==> r[j] == es[j].path
  {
    seq(|es|, j requires 0 <= j < |es| => es[j].path)
  }

  /** From `p` to `r` exactly the entries `es` were noted, all below `path`. */
  ghost predicate Noted(p: Plan, r: Plan, es: seq<Entry>, path: Path) {
    && r.paths == p.paths + EntryPaths(es)
    && (forall q :: q in p.info ==> q in r.info && r.info[q] == p.info[q])
    && (forall q :: q in r.info ==> q in p.info || HasPrefix(q, path))
    && (forall e :: e in es ==> e.path in r.info && r.info[e.path] == e.info)
  }

  ghost predicate NothingBelow(p: Plan, path: Path) {
    forall q :: q in p.info ==> !HasPrefix(q, path)
  }

  /** The last step of the loop. */
  lemma AssignLast(p: Plan, stems: seq<Stem>, root: Node, present: set<Path>, ks: Keys, pre: seq<Value>)
    requires |ks| == |pre| && Consistent(p) && stems != []
    ensures var m := |stems| - 1;
            var before := AssignAll(p, stems[..m], Statuses(root, 0, stems[..m]), present, ks, pre);
            AssignAll(p, stems, Statuses(root, 0, stems), present, ks, pre)
            == if before.Err? then before else Assign(before.value, stems[m], Statuses(root, 0, stems)[m], present, ks, pre)
  {
    hide Assign, Statuses;
    StatusesPrefix(root, stems);
  }

  lemma {:induction false} AssignAllConcat(p: Plan, a: seq<Stem>, b: seq<Stem>, root: Node, present: set<Path>, ks: Keys, pre: seq<Value>)
    requires |ks| == |pre| && Consistent(p)
    ensures var first := AssignAll(p, a, Statuses(root, 0, a), present, ks, pre);
            AssignAll(p, a + b, Statuses(root, 0, a + b), present, ks, pre)
            == if first.Err? then first else AssignAll(first.value, b, Statuses(root, 0, b), present, ks, pre)
    decreases |b|
  {
    hide Assign, Statuses, Walk, PackStatus, StatusOf, DepthOf, Consistent;
    var first := AssignAll(p, a, Statuses(root, 0, a), present, ks, pre);
    if b == [] {
      assert a + b == a;
    } else {
      var n := |b| - 1;
      AssignAllConcat(p, a, b[..n], root, present, ks, pre);
      assert (a + b)[..|a + b| - 1] == a + b[..n] && (a + b)[|a + b| - 1] == b[n];
      StatusesConcat(root, a, b);
      hide AssignAll;
      AssignLast(p, a + b, root, present, ks, pre);
      if first.Ok? {
        AssignLast(first.value, b, root, present, ks, pre);
      }
    }
  }

  lemma StemsUnderExtend(ks: Keys, path: Path, s: Stem)
    requires |path| <= STEM_SIZE && s in Stems(Under(ks, path))
    ensures HasPrefix(s, path)
  {
    StemsAreRequested(Under(ks, path), s);
    var k :| k in Under(ks, path) && KeyToStem(k) == s;
    assert k[..|path|] == s[..|path|];
  }

  /** Keys of a stem that the tree does not hold read nil. */
  lemma AbsentHasNoValue(n: Node, path: Path, ks: Keys, pre: seq<Value>, s: Stem)
    requires (n.Leaf? && n.stem != s) || n.Empty?
    requires |path| <= STEM_SIZE && HasPrefix(s, path) && Agrees(n, path, ks, pre)
    ensures !HasValue(ks, pre, s)
  {
    forall j | 0 <= j < |ks| && HasPrefix(ks[j], s) ensures pre[j] == Nil {
      assert KeyToStem(ks[j]) == s;
      assert ks[j][..|path|] == s[..|path|];
    }
  }

  // ----- Leaves and empty slots ------------------------------------------

  /** The plan once a requested leaf has been noted. */
  function WithPresent(p: Plan, path: Path, ks: Keys, pre: seq<Value>, stem: Stem): Plan
    requires |ks| == |pre|
  {
    p.(info := p.info[path := Present(ks, pre, stem)], paths := p.paths + [path])
  }

  /** The plan once a leaf was found to hold another stem. */
  function WithOther(p: Plan, path: Path, stem: Stem): Plan
    requires p.poas != []
  {
    Plan(p.info[path := AbsentOther(stem)], p.paths + [path], p.poas[1..])
  }

  /** One stem whose walk ends at a leaf. */
  lemma AssignAtLeaf(root: Node, n: Node, path: Path, ks: Keys, pre: seq<Value>, p: Plan, s: Stem, es: byte)
    requires n.Leaf? && Placed(n, path) && Reaches(root, n, path) && Agrees(n, path, ks, pre) && Consistent(p)
    requires HasPrefix(s, path) && StatusOf(es) == Walk(root, 0, s).status && DepthOf(es) == Walk(root, 0, s).depth
    ensures var r, present := Assign(p, s, es, PresentIn(root, ks), ks, pre), Requested(ks, n.stem);
            && (s == n.stem ==> r == Ok(WithPresent(p, path, ks, pre, n.stem)))
            && (s != n.stem && (present || path in p.info) ==> r == Ok(p))
            && (s != n.stem && !present && path !in p.info && p.poas != [] && p.poas[0] == n.stem ==>
                  r == Ok(WithOther(p, path, n.stem)))
  {
    PresentAtLeaf(root, n, path, ks);
    hide PresentIn, Requested;
    assert Walk(root, 0, s) == Walk(n, |path|, s);
    if s != n.stem {
      AbsentHasNoValue(n, path, ks, pre, s);
    }
  }

  /** Other stems do not matter to a leaf that was asked for. */
  lemma {:induction false} AssignSkips(root: Node, n: Node, path: Path, ks: Keys, pre: seq<Value>, p: Plan, stems: seq<Stem>)
    requires n.Leaf? && Placed(n, path) && Reaches(root, n, path) && Agrees(n, path, ks, pre) && Consistent(p)
    requires |ks| == |pre| && Requested(ks, n.stem) && forall s :: s in stems ==> HasPrefix(s, path) && s != n.stem
    ensures AssignAll(p, stems, Statuses(root, 0, stems), PresentIn(root, ks), ks, pre) == Ok(p)
  {
    hide Assign, Requested, PresentIn, Reaches, Agrees, Walk, HasPrefix, Placed, Consistent;
    if stems != [] {
      var m := |stems| - 1;
      assert stems[m] in stems && forall x :: x in stems[..m] ==> x in stems;
      AssignSkips(root, n, path, ks, pre, p, stems[..m]);
      AssignLast(p, stems, root, PresentIn(root, ks), ks, pre);
      AssignAtLeaf(root, n, path, ks, pre, p, stems[m], Statuses(root, 0, stems)[m]);
    }
  }

  lemma AssignPresentLeaf(root: Node, n: Node, path: Path, ks: Keys, pre: seq<Value>, p: Plan, stems: seq<Stem>)
    requires n.Leaf? && Placed(n, path) && Reaches(root, n, path) && Agrees(n, path, ks, pre) && Consistent(p)
    requires |ks| == |pre| && Requested(ks, n.stem) && n.stem in stems && forall s :: s in stems ==> HasPrefix(s, path)
    requires forall i, j :: 0 <= i < j < |stems| ==> stems[i] != stems[j]
    ensures AssignAll(p, stems, Statuses(root, 0, stems), PresentIn(root, ks), ks, pre) == Ok(WithPresent(p, path, ks, pre, n.stem))
  {
    hide Assign, AssignAll, Requested, PresentIn, Reaches, Agrees, Walk, HasPrefix, Placed, WithPresent, Statuses, Consistent;
    var i :| 0 <= i < |stems| && stems[i] == n.stem;
    var a, b, q := stems[..i + 1], stems[i + 1..], WithPresent(p, path, ks, pre, n.stem);
    assert stems == a + b && a[..i] == stems[..i] && a[i] == n.stem;
    assert forall s :: s in a[..i] ==> s in stems && s != n.stem;
    assert forall s :: s in b ==> s in stems && s != n.stem;
    AssignSkips(root, n, path, ks, pre, p, a[..i]);
    AssignLast(p, a, root, PresentIn(root, ks), ks, pre);
    AssignAtLeaf(root, n, path, ks, pre, p, n.stem, Statuses(root, 0, a)[i]);
    WithPresentConsistent(p, path, ks, pre, n.stem);
    AssignSkips(root, n, path, ks, pre, q, b);
    AssignAllConcat(p, a, b, root, PresentIn(root, ks), ks, pre);
  }

  lemma WithPresentConsistent(p: Plan, path: Path, ks: Keys, pre: seq<Value>, stem: Stem)
    requires |ks| == |pre| && Consistent(p)
    ensures Consistent(WithPresent(p, path, ks, pre, stem))
  {
    hide Present;
  }

  lemma {:induction false} AssignOtherLeaf(root: Node, n: Node, path: Path, ks: Keys, pre: seq<Value>, p: Plan, stems: seq<Stem>)
    requires n.Leaf? && Placed(n, path) && Reaches(root, n, path) && Agrees(n, path, ks, pre) && Consistent(p)
    requires |ks| == |pre| && !Requested(ks, n.stem) && forall s :: s in stems ==> HasPrefix(s, path) && s != n.stem
    requires path !in p.info && p.poas != [] && p.poas[0] == n.stem
    ensures AssignAll(p, stems, Statuses(root, 0, stems), PresentIn(root, ks), ks, pre)
         == Ok(if stems == [] then p else WithOther(p, path, n.stem))
  {
    hide Assign, Requested, PresentIn, Reaches, Agrees, Walk, HasPrefix;
    if stems != [] {
      var m := |stems| - 1;
      var init, s := stems[..m], stems[m];
      assert forall x :: x in init ==> x in stems;
      AssignOtherLeaf(root, n, path, ks, pre, p, init);
      AssignLast(p, stems, root, PresentIn(root, ks), ks, pre);
      assert s in stems;
      AssignAtLeaf(root, n, path, ks, pre, if init == [] then p else WithOther(p, path, n.stem), s, Statuses(root, 0, stems)[m]);
    }
  }

  /** The plan once an empty slot was met by `count` stems. */
  function WithEmpty(p: Plan, path: Path, count: nat): Plan {
    if count == 0 then p
    else p.(info := p.info[path := AbsentEmpty()], paths := p.paths + seq(count, _ => path))
  }

  lemma WithEmptyStep(p: Plan, path: Path, count: nat)
    ensures var q := WithEmpty(p, path, count);
            q.(info := q.info[path := AbsentEmpty()], paths := q.paths + [path]) == WithEmpty(p, path, count + 1)
  {
    assert seq(count, _ => path) + [path] == seq(count + 1, _ => path);
    assert p.info[path := AbsentEmpty()][path := AbsentEmpty()] == p.info[path := AbsentEmpty()];
    if count == 0 {
      assert p.paths + [path] == p.paths + seq(1, _ => path);
    } else {
      assert p.paths + seq(count, _ => path) + [path] == p.paths + (seq(count, _ => path) + [path]);
    }
  }

  /** One stem whose walk ends at an empty slot. */
  lemma AssignAtEmpty(root: Node, n: Node, path: Path, ks: Keys, pre: seq<Value>, p: Plan, s: Stem, es: byte, count: nat)
    requires n.Empty? && Reaches(root, n, path) && Agrees(n, path, ks, pre) && Consistent(p) && Consistent(WithEmpty(p, path, count))
    requires HasPrefix(s, path) && StatusOf(es) == Walk(root, 0, s).status && DepthOf(es) == Walk(root, 0, s).depth
    ensures Assign(WithEmpty(p, path, count), s, es, PresentIn(root, ks), ks, pre) == Ok(WithEmpty(p, path, count + 1))
  {
    hide PresentIn, WithEmpty;
    assert Walk(root, 0, s) == Walk(n, |path|, s);
    AbsentHasNoValue(n, path, ks, pre, s);
    WithEmptyStep(p, path, count);
  }

  lemma {:induction false} AssignEmpty(root: Node, n: Node, path: Path, ks: Keys, pre: seq<Value>, p: Plan, stems: seq<Stem>)
    requires n.Empty? && Reaches(root, n, path) && Agrees(n, path, ks, pre) && Consistent(p) && |ks| == |pre|
    requires forall s :: s in stems ==> HasPrefix(s, path)
    ensures AssignAll(p, stems, Statuses(root, 0, stems), PresentIn(root, ks), ks, pre) == Ok(WithEmpty(p, path, |stems|))
  {
    hide Assign, PresentIn, Reaches, Agrees, Walk, HasPrefix, WithEmpty;
    if stems == [] {
      assert WithEmpty(p, path, 0) == p by {
        EmptyCountsZero(p, path);
      }
    } else {
      var m := |stems| - 1;
      var init, s := stems[..m], stems[m];
      assert s in stems && forall x :: x in init ==> x in stems;
      AssignEmpty(root, n, path, ks, pre, p, init);
      AssignLast(p, stems, root, PresentIn(root, ks), ks, pre);
      AssignAtEmpty(root, n, path, ks, pre, p, s, Statuses(root, 0, stems)[m], m);
    }
  }

  lemma EmptyCountsZero(p: Plan, path: Path)
    ensures WithEmpty(p, path, 0) == p
  {
  }

  // ----- Whole subtrees ---------------------------------------------------

  /** The loop over the stems below `path` notes the entries of that subtree and takes its absence
      stems off the front of the list. */
  ghost predicate Assigned(root: Node, path: Path, ks: Keys, pre: seq<Value>, p: Plan, stems: seq<Stem>, es: seq<Entry>, rest: seq<Stem>)
    requires |ks| == |pre| && Consistent(p)
  {
    var r := Outcome(root, ks, pre, p, stems);
    r.Ok? && Noted(p, r.value, es, path) && r.value.poas == rest
  }

  /** The loop run over some stems of the root's status list. */
  function Outcome(root: Node, ks: Keys, pre: seq<Value>, p: Plan, stems: seq<Stem>): (r: Result<Plan>)
    requires |ks| == |pre| && Consistent(p)
    ensures r.Ok? ==> Consistent(r.value)
  {
    AssignAll(p, stems, Statuses(root, 0, stems), PresentIn(root, ks), ks, pre)
  }

  lemma StemsUnderFacts(ks: Keys, path: Path)
    requires SortedKeys(ks) && |path| <= STEM_SIZE
    ensures forall s :: s in Stems(Under(ks, path)) ==> HasPrefix(s, path)
    ensures forall i, j :: 0 <= i < j < |Stems(Under(ks, path))| ==> Stems(Under(ks, path))[i] != Stems(Under(ks, path))[j]
  {
    var stems := Stems(Under(ks, path));
    forall s | s in stems ensures HasPrefix(s, path) {
      StemsUnderExtend(ks, path, s);
    }
    UnderSorted(ks, path);
    StemsSorted(Under(ks, path));
    forall i, j | 0 <= i < j < |stems| ensures stems[i] != stems[j] {
      LessIrreflexive(stems[i]);
    }
  }

  lemma AssignLeaf(root: Node, n: Node, path: Path, ks: Keys, pre: seq<Value>, p: Plan, rest: seq<Stem>)
    requires n.Leaf? && Placed(n, path) && SortedKeys(ks) && Touched(ks, path)
    requires Reaches(root, n, path) && Agrees(n, path, ks, pre) && Consistent(p)
    requires NothingBelow(p, path) && p.poas == AbsenceStems(n, path, ks) + rest
    ensures Assigned(root, path, ks, pre, p, Stems(Under(ks, path)), Entries(n, path, ks, pre), rest)
  {
    assert |ks| == |pre|;
    var stems := Stems(Under(ks, path));
    StemsUnderFacts(ks, path);
    SomeStem(ks, path);
    StemsAreRequested(Under(ks, path), n.stem);
    RequestedUnder(ks, path, n.stem, 0);
    hide Stems, Under, AssignAll, Requested, Statuses, Reaches, Agrees, Touched;
    hide Present, PresentIn, Noted, AbsenceStems, Assigned, Consistent, Less, SortedKeys;
    PathIsNew(p, path);
    LeafAbsence(n, path, ks, p.poas, rest);
    if Requested(ks, n.stem) {
      AssignPresentLeaf(root, n, path, ks, pre, p, stems);
      NotedOne(p, path, Present(ks, pre, n.stem), p.poas);
      AssignedBy(root, path, ks, pre, p, stems, [Entry(path, Present(ks, pre, n.stem))], rest, WithPresent(p, path, ks, pre, n.stem));
    } else {
      AssignOtherLeaf(root, n, path, ks, pre, p, stems);
      NotedOne(p, path, AbsentOther(n.stem), rest);
      AssignedBy(root, path, ks, pre, p, stems, [Entry(path, AbsentOther(n.stem))], rest, WithOther(p, path, n.stem));
    }
  }

  lemma AssignedBy(root: Node, path: Path, ks: Keys, pre: seq<Value>, p: Plan, stems: seq<Stem>, es: seq<Entry>, rest: seq<Stem>, r: Plan)
    requires |ks| == |pre| && Consistent(p)
    requires AssignAll(p, stems, Statuses(root, 0, stems), PresentIn(root, ks), ks, pre) == Ok(r)
    requires Noted(p, r, es, path) && r.poas == rest
    ensures Assigned(root, path, ks, pre, p, stems, es, rest)
  {
  }

  lemma PathIsNew(p: Plan, path: Path)
    requires NothingBelow(p, path)
    ensures path !in p.info
  {
  }

  lemma LeafAbsence(n: Node, path: Path, ks: Keys, poas: seq<Stem>, rest: seq<Stem>)
    requires n.Leaf? && Placed(n, path) && poas == AbsenceStems(n, path, ks) + rest
    ensures if Requested(ks, n.stem) then poas == rest else poas != [] && poas[0] == n.stem && poas[1..] == rest
  {
  }

  lemma NotedOne(p: Plan, path: Path, info: StemInfo, poas: seq<Stem>)
    requires path !in p.info
    ensures Noted(p, Plan(p.info[path := info], p.paths + [path], poas), [Entry(path, info)], path)
  {
  }

  lemma NotedEmpty(p: Plan, path: Path, count: nat)
    requires path !in p.info
    ensures Noted(p, WithEmpty(p, path, count), Repeat(Entry(path, AbsentEmpty()), count), path)
    ensures WithEmpty(p, path, count).poas == p.poas
  {
    assert EntryPaths(Repeat(Entry(path, AbsentEmpty()), count)) == seq(count, _ => path);
    if count == 0 {
      assert p.paths + [] == p.paths;
    }
  }

  lemma {:induction false} AssignNode(root: Node, n: Node, path: Path, ks: Keys, pre: seq<Value>, p: Plan, rest: seq<Stem>)
    requires Placed(n, path) && Full(n) && SortedKeys(ks) && Touched(ks, path)
    requires Reaches(root, n, path) && Agrees(n, path, ks, pre) && Consistent(p)
    requires NothingBelow(p, path) && p.poas == AbsenceStems(n, path, ks) + rest
    ensures Assigned(root, path, ks, pre, p, Stems(Under(ks, path)), Entries(n, path, ks, pre), rest)
    decreases n, NODE_WIDTH + 1
  {
    assert |path| <= STEM_SIZE && |ks| == |pre|;
    hide Noted, AssignAll, Statuses, PresentIn, Stems, Under, Reaches, Agrees, NothingBelow, WithEmpty, Less, HasPrefix, SortedKeys, Touched, Consistent, Assigned;
    match n
    case Empty =>
      var stems := Stems(Under(ks, path));
      StemsUnderFacts(ks, path);
      AssignEmpty(root, n, path, ks, pre, p, stems);
      PathIsNew(p, path);
      NotedEmpty(p, path, |stems|);
      assert p.poas == rest;
      AssignedBy(root, path, ks, pre, p, stems, Entries(n, path, ks, pre), rest, WithEmpty(p, path, |stems|));
    case Leaf(_, _, _, _, _) => AssignLeaf(root, n, path, ks, pre, p, rest);
    case Internal(_, _) =>
      UnderBelowAll(ks, path);
      AssignBelow(root, n, path, ks, pre, p, NODE_WIDTH, rest);
  }

  /** The infos noted so far belong to children before `i`. */
  ghost predicate NotedBelow(p: Plan, r: Plan, path: Path, i: nat) {
    forall q :: q in r.info ==> q in p.info || (HasPrefix(q, path) && |path| < |q| && q[|path|] < i)
  }

  lemma {:induction false} AssignBelow(root: Node, n: Node, path: Path, ks: Keys, pre: seq<Value>, p: Plan, i: nat, rest: seq<Stem>)
    requires n.Internal? && Placed(n, path) && Full(n) && SortedKeys(ks) && i <= NODE_WIDTH
    requires Reaches(root, n, path) && Agrees(n, path, ks, pre) && Consistent(p)
    requires NothingBelow(p, path) && p.poas == AbsenceBelow(n, path, ks, i) + rest
    ensures Assigned(root, path, ks, pre, p, Stems(UnderBelow(ks, path, i)), EntriesBelow(n, path, ks, pre, i), rest)
    ensures NotedBelow(p, Outcome(root, ks, pre, p, Stems(UnderBelow(ks, path, i))).value, path, i)
    decreases n, i
  {
    assert |path| < STEM_SIZE && |ks| == |pre|;
    hide Placed, Full, Reaches, Agrees, Stems, Under, UnderBelow, Outcome, Entries, EntriesBelow, AbsenceStems, AbsenceBelow;
    hide Touched, Noted, NotedBelow, NothingBelow, Assigned, Consistent, SortedKeys;
    if i == 0 {
      UnderBelowAll(ks, path);
      NothingNoted(root, n, p, path, ks, pre, rest);
    } else {
      var j: byte := i - 1;
      ChildFacts(root, n, path, ks, pre, j);
      StemsSplit(ks, path, j);
      BelowStep(n, path, ks, pre, j, rest);
      var q, c := path + [j], n.children[j];
      var before, more := Stems(UnderBelow(ks, path, j)), Stems(Under(ks, q));
      if Touched(ks, q) {
        AssignBelow(root, n, path, ks, pre, p, j, AbsenceStems(c, q, ks) + rest);
        AssignedFacts(root, path, ks, pre, p, before, EntriesBelow(n, path, ks, pre, j), AbsenceStems(c, q, ks) + rest);
        var mid := Outcome(root, ks, pre, p, before).value;
        StillNothingBelow(p, mid, path, j);
        AssignNode(root, c, q, ks, pre, mid, rest);
        TwoOutcomes(root, path, ks, pre, p, j, before, more, EntriesBelow(n, path, ks, pre, j), Entries(c, q, ks, pre), rest);
      } else {
        AssignBelow(root, n, path, ks, pre, p, j, rest);
        UntouchedHasNoStems(ks, q);
        assert before + more == before;
        NotedMonotone(p, Outcome(root, ks, pre, p, before).value, path, j);
      }
    }
  }

  lemma BelowStep(n: Node, path: Path, ks: Keys, pre: seq<Value>, j: byte, rest: seq<Stem>)
    requires n.Internal? && Placed(n, path) && |ks| == |pre|
    ensures var q, c := path + [j], n.children[j];
            if Touched(ks, q) then
              && AbsenceBelow(n, path, ks, j + 1) + rest == AbsenceBelow(n, path, ks, j) + (AbsenceStems(c, q, ks) + rest)
              && EntriesBelow(n, path, ks, pre, j + 1) == EntriesBelow(n, path, ks, pre, j) + Entries(c, q, ks, pre)
            else
              && AbsenceBelow(n, path, ks, j + 1) == AbsenceBelow(n, path, ks, j)
              && EntriesBelow(n, path, ks, pre, j + 1) == EntriesBelow(n, path, ks, pre, j)
  {
    hide AbsenceStems, Entries, Touched;
    AssociateStems(AbsenceBelow(n, path, ks, j), AbsenceStems(n.children[j], path + [j], ks), rest);
  }

  lemma AssociateStems(a: seq<Stem>, b: seq<Stem>, c: seq<Stem>)
    ensures (a + b) + c == a + (b + c)
  {
  }

  lemma AssignedFacts(root: Node, path: Path, ks: Keys, pre: seq<Value>, p: Plan, stems: seq<Stem>, es: seq<Entry>, rest: seq<Stem>)
    requires |ks| == |pre| && Consistent(p) && Assigned(root, path, ks, pre, p, stems, es, rest)
    ensures var r := Outcome(root, ks, pre, p, stems);
            r.Ok? && Noted(p, r.value, es, path) && r.value.poas == rest && Consistent(r.value)
  {
  }

  lemma TwoOutcomes(root: Node, path: Path, ks: Keys, pre: seq<Value>, p: Plan, i: byte,
      before: seq<Stem>, more: seq<Stem>, a: seq<Entry>, b: seq<Entry>, rest: seq<Stem>)
    requires |ks| == |pre| && Consistent(p)
    requires var mid := Outcome(root, ks, pre, p, before);
      mid.Ok? && Consistent(mid.value) && Noted(p, mid.value, a, path) && NotedBelow(p, mid.value, path, i)
      && Assigned(root, path + [i], ks, pre, mid.value, more, b, rest)
    ensures Assigned(root, path, ks, pre, p, before + more, a + b, rest)
    ensures NotedBelow(p, Outcome(root, ks, pre, p, before + more).value, path, i + 1)
  {
    AssignAllConcat(p, before, more, root, PresentIn(root, ks), ks, pre);
    var mid := Outcome(root, ks, pre, p, before).value;
    hide Noted, NotedBelow, PresentIn, Statuses, AssignAll;
    NotedTwice(p, mid, Outcome(root, ks, pre, mid, more).value, a, b, path, i);
  }

  lemma UntouchedHasNoStems(ks: Keys, path: Path)
    requires !Touched(ks, path)
    ensures Stems(Under(ks, path)) == []
  {
    NoKeysUnder(ks, path);
  }

  lemma NothingNoted(root: Node, n: Node, p: Plan, path: Path, ks: Keys, pre: seq<Value>, rest: seq<Stem>)
    requires n.Internal? && Placed(n, path) && |ks| == |pre| && Consistent(p)
    requires p.poas == AbsenceBelow(n, path, ks, 0) + rest
    ensures Stems([]) == [] && Outcome(root, ks, pre, p, []) == Ok(p) && EntriesBelow(n, path, ks, pre, 0) == []
    ensures NotedBelow(p, p, path, 0) && Assigned(root, path, ks, pre, p, [], [], rest)
  {
    assert p.poas == rest;
  }

  lemma ChildFacts(root: Node, n: Node, path: Path, ks: Keys, pre: seq<Value>, i: byte)
    requires n.Internal? && Placed(n, path) && Full(n) && Reaches(root, n, path) && Agrees(n, path, ks, pre)
    ensures |n.children| == NODE_WIDTH && |path| < STEM_SIZE && |ks| == |pre|
    ensures var q, c := path + [i], n.children[i];
            Placed(c, q) && Full(c) && Reaches(root, c, q) && Agrees(c, q, ks, pre)
  {
    ReachesBelow(root, n, path, i);
    AgreesBelow(n, path, ks, pre, i);
  }

  lemma PrefixStep(q: Path, path: Path, i: byte)
    ensures HasPrefix(q, path + [i]) <==> HasPrefix(q, path) && |path| < |q| && q[|path|] == i
  {
    if |path| < |q| {
      assert q[..|path| + 1] == q[..|path|] + [q[|path|]];
    }
  }

  lemma StillNothingBelow(p: Plan, mid: Plan, path: Path, i: byte)
    requires NothingBelow(p, path) && NotedBelow(p, mid, path, i)
    ensures NothingBelow(mid, path + [i])
  {
    forall q | q in mid.info ensures !HasPrefix(q, path + [i]) {
      PrefixStep(q, path, i);
    }
  }

  lemma NotedMonotone(p: Plan, r: Plan, path: Path, i: nat)
    requires NotedBelow(p, r, path, i)
    ensures NotedBelow(p, r, path, i + 1)
  {
  }

  lemma EntryPathsConcat(before: seq<Path>, a: seq<Entry>, b: seq<Entry>)
    ensures before + EntryPaths(a) + EntryPaths(b) == before + EntryPaths(a + b)
  {
    assert EntryPaths(a + b) == EntryPaths(a) + EntryPaths(b);
  }

  lemma NotedTwice(p: Plan, mid: Plan, r: Plan, a: seq<Entry>, b: seq<Entry>, path: Path, i: byte)
    requires Noted(p, mid, a, path) && NotedBelow(p, mid, path, i) && Noted(mid, r, b, path + [i])
    ensures Noted(p, r, a + b, path) && NotedBelow(p, r, path, i + 1)
  {
    hide HasPrefix, EntryPaths;
    EntryPathsConcat(p.paths, a, b);
    forall q | q in r.info
      ensures q in p.info || HasPrefix(q, path)
      ensures q in p.info || (HasPrefix(q, path) && |path| < |q| && q[|path|] < i + 1)
    {
      PrefixStep(q, path, i);
      assert q in mid.info || HasPrefix(q, path + [i]);
    }
    forall e | e in a + b ensures e.path in r.info && r.info[e.path] == e.info {
      assert e in a ==> e.path in mid.info;
    }
  }
}
