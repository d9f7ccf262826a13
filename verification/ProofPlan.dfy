/** The lists of a proof beside its openings, and what they have to do with the shape of the tree:
    commitments sorted by path, absence stems, one status per stem. */
module ProofPlan {
  import opened Pedersen
  import opened VerkleTypes
  import opened ByteOrder
  import opened Multiproof

  datatype Located = Located(path: Path, point: Point)

  function Points(ls: seq<Located>): (r: seq<Point>)
    ensures |r| == |ls| && forall i :: 0 <= i < |ls| ==> r[i] == ls[i].point
  {
    seq(|ls|, i requires 0 <= i < |ls| => ls[i].point)
  }

  function Paths(ls: seq<Located>): (r: seq<Path>)
    ensures |r| == |ls| && forall i :: 0 <= i < |ls| ==> r[i] == ls[i].path
  {
    seq(|ls|, i requires 0 <= i < |ls| => ls[i].path)
  }

  lemma PathsConcat(a: seq<Located>, b: seq<Located>)
    ensures Paths(a + b) == Paths(a) + Paths(b) && Points(a + b) == Points(a) + Points(b)
  {
  }

  // ----- Commitments by path ---------------------------------------------

  /** The commitments a proof carries for the subtree `n`, parents before children, left to right. */
  function PathComms(n: Node, path: Path, ks: Keys): seq<Located>
    requires Placed(n, path)
    decreases n, NODE_WIDTH + 1
  {
    match n
    case Empty => []
    case Unknown => []
    case Leaf(stem, _, comm, c1, c2) =>
      [Located(path, comm)]
      + (if RequestedHalf(ks, stem, 0) then [Located(path + [2], c1)] else [])
      + (if RequestedHalf(ks, stem, 128) then [Located(path + [3], c2)] else [])
    case Stub(_, comm) => [Located(path, comm)]
    case Internal(_, comm) => [Located(path, comm)] + CommsBelow(n, path, ks, NODE_WIDTH)
  }

  function CommsBelow(n: Node, path: Path, ks: Keys, i: nat): seq<Located>
    requires n.Internal? && Placed(n, path) && i <= NODE_WIDTH
    decreases n, i
  {
    if i == 0 then []
    else
      CommsBelow(n, path, ks, i - 1)
      + if Touched(ks, path + [i - 1]) then PathComms(n.children[i - 1], path + [i - 1], ks) else []
  }

  ghost predicate AllExtend(ps: seq<Path>, path: Path) {
    forall i :: 0 <= i < |ps| ==> HasPrefix(ps[i], path)
  }

  lemma LeafCommsSorted(path: Path, point: Point, c1: Point, c2: Point, has1: bool, has2: bool)
    ensures var ps := Paths([Located(path, point)] + (if has1 then [Located(path + [2], c1)] else [])
                            + if has2 then [Located(path + [3], c2)] else []);
            AllExtend(ps, path) && StrictlySorted(ps)
  {
    PrefixIsLess(path, path + [2]);
    PrefixIsLess(path, path + [3]);
    LessAtFork(path + [2], path + [3], path);
    hide Less;
  }

  lemma {:induction false} PathCommsSorted(n: Node, path: Path, ks: Keys)
    requires Placed(n, path)
    ensures AllExtend(Paths(PathComms(n, path, ks)), path)
    ensures StrictlySorted(Paths(PathComms(n, path, ks)))
    decreases n, NODE_WIDTH + 1
  {
    hide Less, RequestedHalf;
    match n
    case Empty =>
    case Unknown =>
    case Leaf(stem, _, comm, c1, c2) =>
      LeafCommsSorted(path, comm, c1, c2, RequestedHalf(ks, stem, 0), RequestedHalf(ks, stem, 128));
    case Stub(_, _) =>
    case Internal(_, comm) =>
      CommsBelowSorted(n, path, ks, NODE_WIDTH);
      ParentFirst(CommsBelow(n, path, ks, NODE_WIDTH), path, comm);
  }

  lemma ParentFirst(below: seq<Located>, path: Path, comm: Point)
    requires AllExtend(Paths(below), path) && StrictlySorted(Paths(below))
    requires forall p :: p in Paths(below) ==> |p| > |path|
    ensures AllExtend(Paths([Located(path, comm)] + below), path) && StrictlySorted(Paths([Located(path, comm)] + below))
  {
    hide Less;
    var ps := Paths(below);
    forall j | 0 <= j < |ps| ensures Less(path, ps[j]) {
      assert ps[j] in ps;
      PrefixIsLess(path, ps[j]);
    }
    assert Paths([Located(path, comm)] + below) == [path] + ps;
    ConcatStrictlySorted([path], ps);
  }

  lemma {:induction false} CommsBelowSorted(n: Node, path: Path, ks: Keys, i: nat)
    requires n.Internal? && Placed(n, path) && i <= NODE_WIDTH
    ensures AllExtend(Paths(CommsBelow(n, path, ks, i)), path)
    ensures forall p :: p in Paths(CommsBelow(n, path, ks, i)) ==> |p| > |path| && p[|path|] < i
    ensures StrictlySorted(Paths(CommsBelow(n, path, ks, i)))
    decreases n, i
  {
    hide Less, PathComms, Touched, StrictlySorted, AllExtend;
    if i == 0 {
      NoPaths(path);
    } else {
      CommsBelowSorted(n, path, ks, i - 1);
      var before, q := CommsBelow(n, path, ks, i - 1), path + [i - 1];
      if Touched(ks, q) {
        var here := PathComms(n.children[i - 1], q, ks);
        PathCommsSorted(n.children[i - 1], q, ks);
        ExtendStep(Paths(here), path, i - 1);
        AppendSibling(Paths(before), Paths(here), path, i - 1);
        assert CommsBelow(n, path, ks, i) == before + here;
        PathsConcat(before, here);
      } else {
        assert CommsBelow(n, path, ks, i) == before;
      }
    }
  }

  lemma NoPaths(path: Path)
    ensures AllExtend([], path) && StrictlySorted([])
  {
  }

  lemma ExtendStep(ps: seq<Path>, path: Path, i: byte)
    requires AllExtend(ps, path + [i])
    ensures AllExtend(ps, path) && forall p :: p in ps ==> |p| > |path| && p[|path|] == i
  {
    forall j | 0 <= j < |ps| ensures HasPrefix(ps[j], path) && |ps[j]| > |path| && ps[j][|path|] == i {
      assert ps[j][..|path| + 1] == path + [i];
      assert ps[j][..|path|] == ps[j][..|path| + 1][..|path|];
    }
  }

  /** What sits below a later child comes after what sits below earlier ones. */
  lemma AppendSibling(before: seq<Path>, here: seq<Path>, path: Path, i: byte)
    requires StrictlySorted(before) && StrictlySorted(here) && AllExtend(before, path) && AllExtend(here, path)
    requires forall p :: p in before ==> |p| > |path| && p[|path|] < i
    requires forall p :: p in here ==> |p| > |path| && p[|path|] == i
    ensures StrictlySorted(before + here) && AllExtend(before + here, path)
    ensures forall p :: p in before + here ==> |p| > |path| && p[|path|] <= i
  {
    forall a, b | 0 <= a < |before| && 0 <= b < |here| ensures Less(before[a], here[b]) {
      assert before[a] in before && here[b] in here;
      LessAtFork(before[a], here[b], path);
    }
    ConcatStrictlySorted(before, here);
  }

  // ----- Absence stems ---------------------------------------------------

  /** The stems of the leaves that keys run into without matching. */
  function AbsenceStems(n: Node, path: Path, ks: Keys): seq<Stem>
    requires Placed(n, path)
    decreases n, NODE_WIDTH + 1
  {
    match n
    case Empty => []
    case Unknown => []
    case Leaf(stem, _, _, _, _) => if Requested(ks, stem) then [] else [stem]
    case Stub(stem, _) => [stem]
    case Internal(_, _) => AbsenceBelow(n, path, ks, NODE_WIDTH)
  }

  function AbsenceBelow(n: Node, path: Path, ks: Keys, i: nat): seq<Stem>
    requires n.Internal? && Placed(n, path) && i <= NODE_WIDTH
    decreases n, i
  {
    if i == 0 then []
    else
      AbsenceBelow(n, path, ks, i - 1)
      + if Touched(ks, path + [i - 1]) then AbsenceStems(n.children[i - 1], path + [i - 1], ks) else []
  }

  lemma {:induction false} AbsenceSorted(n: Node, path: Path, ks: Keys)
    requires Placed(n, path)
    ensures AllExtend(AbsenceStems(n, path, ks), path) && StrictlySorted(AbsenceStems(n, path, ks))
    decreases n, NODE_WIDTH + 1
  {
    if n.Internal? {
      AbsenceBelowSorted(n, path, ks, NODE_WIDTH);
    }
  }

  lemma {:induction false} AbsenceBelowSorted(n: Node, path: Path, ks: Keys, i: nat)
    requires n.Internal? && Placed(n, path) && i <= NODE_WIDTH
    ensures AllExtend(AbsenceBelow(n, path, ks, i), path) && StrictlySorted(AbsenceBelow(n, path, ks, i))
    ensures forall p :: p in AbsenceBelow(n, path, ks, i) ==> |p| > |path| && p[|path|] < i
    decreases n, i
  {
    hide Less, AbsenceStems, Touched, StrictlySorted, AllExtend;
    if i == 0 {
      NoPaths(path);
    } else {
      AbsenceBelowSorted(n, path, ks, i - 1);
      var before, q := AbsenceBelow(n, path, ks, i - 1), path + [i - 1];
      if Touched(ks, q) {
        var here := AbsenceStems(n.children[i - 1], q, ks);
        AbsenceSorted(n.children[i - 1], q, ks);
        ExtendStep(here, path, i - 1);
        AppendSibling(before, here, path, i - 1);
      } else {
        assert AbsenceBelow(n, path, ks, i) == before;
      }
    }
  }

  // ----- Stems -----------------------------------------------------------

  /** The stems of the keys, without immediate repetitions. */
  function Stems(ks: Keys): (r: seq<Stem>)
    ensures ks != [] ==> r != [] && r[|r| - 1] == KeyToStem(ks[|ks| - 1])
    ensures |r| <= |ks|
  {
    if ks == [] then []
    else
      var before, s := Stems(ks[..|ks| - 1]), KeyToStem(ks[|ks| - 1]);
      if before != [] && before[|before| - 1] == s then before else before + [s]
  }

  lemma {:induction false} StemsAreRequested(ks: Keys, s: Stem)
    ensures s in Stems(ks) <==> Requested(ks, s)
  {
    if ks != [] {
      var init, last := ks[..|ks| - 1], ks[|ks| - 1];
      StemsAreRequested(init, s);
      assert ks == init + [last];
      assert Requested(ks, s) <==> Requested(init, s) || KeyToStem(last) == s;
    }
  }

  lemma StemOrder(a: Key, b: Key)
    requires !Less(b, a) && KeyToStem(a) != KeyToStem(b)
    ensures Less(KeyToStem(a), KeyToStem(b))
  {
    LessTotal(KeyToStem(a), KeyToStem(b));
    if Less(KeyToStem(b), KeyToStem(a)) {
      LessStems(b, a);
    }
  }

  lemma LessStems(a: Key, b: Key)
    requires Less(KeyToStem(a), KeyToStem(b))
    ensures Less(a, b)
  {
    LessPrefixes(a, b, STEM_SIZE);
  }

  lemma {:induction false} LessPrefixes(a: Path, b: Path, n: nat)
    requires n <= |a| && n <= |b| && Less(a[..n], b[..n])
    ensures Less(a, b)
    decreases n
  {
    if n > 0 && a[0] == b[0] {
      assert a[..n][1..] == a[1..][..n - 1] && b[..n][1..] == b[1..][..n - 1];
      LessPrefixes(a[1..], b[1..], n - 1);
    }
  }

  /** Sorted keys give strictly sorted stems. */
  lemma {:induction false} StemsSorted(ks: Keys)
    requires SortedKeys(ks)
    ensures StrictlySorted(Stems(ks))
  {
    if ks != [] {
      var init, last := ks[..|ks| - 1], ks[|ks| - 1];
      StemsSorted(init);
      var before, s := Stems(init), KeyToStem(last);
      if before != [] && before[|before| - 1] != s {
        var m := |before| - 1;
        StemOrder(init[|init| - 1], last);
        forall i | 0 <= i < |before| ensures Less(before[i], s) {
          if i < m {
            LessTransitive(before[i], before[m], s);
          }
        }
        ConcatStrictlySorted(before, [s]);
      }
    }
  }

  lemma {:induction false} StemsConcat(a: Keys, b: Keys)
    requires a != [] && b != [] ==> KeyToStem(a[|a| - 1]) != KeyToStem(b[0])
    ensures Stems(a + b) == Stems(a) + Stems(b)
  {
    if b == [] {
      assert a + b == a;
    } else {
      var init, last := b[..|b| - 1], b[|b| - 1];
      StemsConcat(a, init);
      assert (a + b)[..|a + b| - 1] == a + init;
      assert (a + b)[|a + b| - 1] == last;
      StemsAppend(Stems(a), Stems(init), Stems(a) + Stems(init), KeyToStem(last));
    }
  }

  lemma StemsAppend(a: seq<Stem>, b: seq<Stem>, ab: seq<Stem>, s: Stem)
    requires ab == a + b
    ensures b == [] && (a == [] || a[|a| - 1] != s) ==> (ab == [] || ab[|ab| - 1] != s) && ab + [s] == a + (b + [s])
    ensures b != [] ==> ab != [] && ab[|ab| - 1] == b[|b| - 1] && ab + [s] == a + (b + [s])
  {
  }

  // ----- Keys below a node, child by child --------------------------------

  /** The keys with prefix `path` whose next byte is less than `i`. */
  function UnderBelow(ks: Keys, path: Path, i: nat): (r: Keys)
    requires |path| < STEM_SIZE
    ensures forall k :: k in r <==> k in ks && HasPrefix(k, path) && k[|path|] < i
  {
    if ks == [] then []
    else
      var last := ks[|ks| - 1];
      UnderBelow(ks[..|ks| - 1], path, i) + if HasPrefix(last, path) && last[|path|] < i then [last] else []
  }

  lemma KeyStep(k: Key, path: Path, i: byte)
    requires |path| < STEM_SIZE
    ensures HasPrefix(k, path + [i]) <==> HasPrefix(k, path) && k[|path|] == i
  {
    assert k[..|path| + 1] == k[..|path|] + [k[|path|]];
  }

  lemma {:induction false} UnderSplits(ks: Keys, path: Path, i: byte)
    requires |path| < STEM_SIZE && SortedKeys(ks)
    ensures UnderBelow(ks, path, i + 1) == UnderBelow(ks, path, i) + Under(ks, path + [i])
  {
    hide Less, HasPrefix;
    if ks != [] {
      var init, last := ks[..|ks| - 1], ks[|ks| - 1];
      UnderSplits(init, path, i);
      KeyStep(last, path, i);
      if HasPrefix(last, path) && last[|path|] < i {
        LaterBytesAreAbsent(ks, path, i);
      }
      SplitAppend(UnderBelow(init, path, i + 1), UnderBelow(init, path, i), Under(init, path + [i]), last);
    }
  }

  lemma SplitAppend(all: Keys, a: Keys, b: Keys, last: Key)
    requires all == a + b
    ensures all + [last] == a + (b + [last]) && all + [] == a + [] + (b + [])
    ensures b == [] ==> all + [last] == a + [last] + b
  {
  }

  lemma LaterBytesAreAbsent(ks: Keys, path: Path, i: byte)
    requires |path| < STEM_SIZE && SortedKeys(ks) && ks != []
    requires HasPrefix(ks[|ks| - 1], path) && ks[|ks| - 1][|path|] < i
    ensures Under(ks, path + [i]) == [] && Under(ks[..|ks| - 1], path + [i]) == []
  {
    hide Less;
    var last := ks[|ks| - 1];
    forall k | k in ks ensures !HasPrefix(k, path + [i]) {
      KeyStep(k, path, i);
      if HasPrefix(k, path) && k[|path|] == i {
        LessAtFork(last, k, path);
      }
    }
    NoKeysUnder(ks, path + [i]);
    NoKeysUnder(ks[..|ks| - 1], path + [i]);
  }

  lemma {:induction false} NoKeysUnder(ks: Keys, path: Path)
    requires forall k :: k in ks ==> !HasPrefix(k, path)
    ensures Under(ks, path) == []
  {
    if ks != [] {
      NoKeysUnder(ks[..|ks| - 1], path);
    }
  }

  lemma {:induction false} UnderBelowAll(ks: Keys, path: Path)
    requires |path| < STEM_SIZE
    ensures UnderBelow(ks, path, NODE_WIDTH) == Under(ks, path)
    ensures UnderBelow(ks, path, 0) == []
  {
    if ks != [] {
      UnderBelowAll(ks[..|ks| - 1], path);
    }
  }

  /** The stems below a node are the stems below its children, in order. */
  lemma StemsSplit(ks: Keys, path: Path, i: byte)
    requires |path| < STEM_SIZE && SortedKeys(ks)
    ensures Stems(UnderBelow(ks, path, i + 1)) == Stems(UnderBelow(ks, path, i)) + Stems(Under(ks, path + [i]))
  {
    UnderSplits(ks, path, i);
    var a, b := UnderBelow(ks, path, i), Under(ks, path + [i]);
    if a != [] && b != [] {
      var x, y := a[|a| - 1], b[0];
      assert x in a && y in b;
      KeyStep(y, path, i);
      assert KeyToStem(x)[|path|] == x[|path|] && KeyToStem(y)[|path|] == y[|path|];
    }
    StemsConcat(a, b);
  }

  lemma {:induction false} UnderSorted(ks: Keys, path: Path)
    requires SortedKeys(ks)
    ensures SortedKeys(Under(ks, path))
  {
    if ks != [] {
      var init, last := ks[..|ks| - 1], ks[|ks| - 1];
      UnderSorted(init, path);
      forall k | k in Under(init, path) ensures !Less(last, k) {
        assert k in init;
      }
    }
  }
}
