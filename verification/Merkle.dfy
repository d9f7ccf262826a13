/** The promote-odd Merkle tree: levels built pairwise, proofs read off the levels. */
module Merkle {
  type Digest = seq<int>

  type Hash = s: seq<int> | |s| == 32 witness seq(32, _ => 0)

  /** sha256.Sum256, of which only the length of its results is known. */
  const Sha256: Digest -> Hash

  type Level = seq<Digest>

  // ----- Levels ----------------------------------------------------------

  /** The next level: neighbours are hashed together, an odd last node is promoted. */
  function Next(l: Level): (r: Level)
    ensures |r| == (|l| + 1) / 2
  {
    seq((|l| + 1) / 2, i requires 0 <= i < (|l| + 1) / 2 =>
      if 2 * i + 1 < |l| then Sha256(l[2 * i] + l[2 * i + 1]) else l[2 * i])
  }

  lemma NextAt(l: Level, i: nat)
    requires i < |Next(l)|
    ensures 2 * i < |l| && Next(l)[i] == if 2 * i + 1 < |l| then Sha256(l[2 * i] + l[2 * i + 1]) else l[2 * i]
  {
  }

  lemma NextOfOne(l: Level)
    requires |l| == 1
    ensures Next(l) == l
  {
  }

  /** All levels from `l` up. */
  function Levels(l: Level): (t: seq<Level>)
    requires l != []
    ensures t != [] && t[0] == l && |t[|t| - 1]| == 1
    ensures forall k :: 0 <= k < |t| ==> t[k] != []
    decreases |l|
  {
    if |l| == 1 then [l] else [l] + Levels(Next(l))
  }

  function Root(l: Level): Digest
    requires l != []
    decreases |l|
  {
    if |l| == 1 then l[0] else Root(Next(l))
  }

  lemma {:induction false} RootOnTop(l: Level)
    requires l != []
    ensures var t := Levels(l); t[|t| - 1] == [Root(l)]
    decreases |l|
  {
    if |l| > 1 {
      RootOnTop(Next(l));
    }
  }

  lemma {:induction false} LevelsFollow(l: Level, k: nat)
    requires l != [] && k + 1 < |Levels(l)|
    ensures Levels(l)[k + 1] == Next(Levels(l)[k]) && |Levels(l)[k]| > 1
    decreases |l|
  {
    if k > 0 {
      LevelsFollow(Next(l), k - 1);
    }
  }

  function Pow2(n: nat): (r: nat)
    ensures r > 0
  {
    if n == 0 then 1 else 2 * Pow2(n - 1)
  }

  /** The height is the base-two logarithm of the number of leaves, rounded up. */
  lemma {:induction false} Height(l: Level)
    requires l != []
    ensures var h := |Levels(l)| - 1; |l| <= Pow2(h) && (h > 0 ==> Pow2(h - 1) < |l|)
    decreases |l|
  {
    hide Next;
    if |l| > 1 {
      Height(Next(l));
      var h := |Levels(Next(l))| - 1;
      assert |Levels(l)| - 1 == h + 1;
      assert h == 0 ==> |Next(l)| == 1;
    }
  }

  // ----- The recursive form ----------------------------------------------

  /** The largest power of two below n, as section 2.1 of RFC 6962 splits a list of n leaves. */
  function SplitPoint(n: nat): (k: nat)
    requires n > 1
    ensures 0 < k < n <= 2 * k
    ensures exists j: nat :: k == Pow2(j)
  {
    if n == 2 then
      assert Pow2(0) == 1;
      1
    else
      var k := SplitPoint((n + 1) / 2);
      ghost var j: nat :| k == Pow2(j);
      assert Pow2(j + 1) == 2 * k;
      2 * k
  }

  /** The tree hash of section 2.1 of RFC 6962, without the prefix bytes and with leaves as they are. */
  function TreeHash(l: Level): Digest
    requires l != []
    decreases |l|
  {
    if |l| == 1 then l[0]
    else
      var k := SplitPoint(|l|);
      Sha256(TreeHash(l[..k]) + TreeHash(l[k..]))
  }

  function Iterate(l: Level, j: nat): Level
    decreases j
  {
    if j == 0 then l else Iterate(Next(l), j - 1)
  }

  lemma NextConcat(a: Level, b: Level)
    requires |a| % 2 == 0
    ensures Next(a + b) == Next(a) + Next(b)
  {
    var l, r, n := Next(a + b), Next(a) + Next(b), |Next(a)|;
    assert |a| == 2 * n;
    forall i | 0 <= i < |l| ensures l[i] == r[i] {
      NextAt(a + b, i);
      if i < n {
        NextAt(a, i);
      } else {
        NextAt(b, i - n);
      }
    }
  }

  /** A block of 2^j leaves keeps to itself for j levels. */
  lemma {:induction false} IterateConcat(a: Level, b: Level, j: nat)
    requires |a| == Pow2(j)
    ensures Iterate(a + b, j) == Iterate(a, j) + Iterate(b, j)
    decreases j
  {
    if j > 0 {
      NextConcat(a, b);
      assert |Next(a)| == Pow2(j - 1);
      hide Next;
      IterateConcat(Next(a), Next(b), j - 1);
      IterateOnce(a, j);
      IterateOnce(b, j);
      IterateOnce(a + b, j);
    }
  }

  lemma IterateOnce(l: Level, j: nat)
    requires j > 0
    ensures Iterate(l, j) == Iterate(Next(l), j - 1)
  {
  }

  lemma {:induction false} IterateToRoot(l: Level, j: nat)
    requires 0 < |l| <= Pow2(j)
    ensures Iterate(l, j) == [Root(l)]
    decreases j
  {
    if j > 0 {
      IterateToRoot(Next(l), j - 1);
      if |l| == 1 {
        NextOfOne(l);
      }
    }
  }

  lemma {:induction false} RootOfIterate(l: Level, j: nat)
    requires l != []
    ensures Iterate(l, j) != [] && Root(Iterate(l, j)) == Root(l)
    decreases j
  {
    if j > 0 {
      RootOfIterate(Next(l), j - 1);
      if |l| == 1 {
        NextOfOne(l);
      }
    }
  }

  lemma RootOfTwo(x: Digest, y: Digest)
    ensures Root([x, y]) == Sha256(x + y)
  {
    assert Next([x, y]) == [Sha256(x + y)];
  }

  /** Building level by level computes the recursive hash. */
  lemma {:induction false} LevelsComputeTreeHash(l: Level)
    requires l != []
    ensures Root(l) == TreeHash(l)
    decreases |l|
  {
    hide Next, Iterate, Pow2, SplitPoint;
    if |l| > 1 {
      var k := SplitPoint(|l|);
      var j: nat :| k == Pow2(j);
      var a, b := l[..k], l[k..];
      LevelsComputeTreeHash(a);
      LevelsComputeTreeHash(b);
      assert l == a + b;
      IterateConcat(a, b, j);
      IterateToRoot(a, j);
      IterateToRoot(b, j);
      RootOfIterate(l, j);
      RootOfTwo(Root(a), Root(b));
      assert Iterate(l, j) == [Root(a)] + [Root(b)] == [Root(a), Root(b)];
    }
  }

  // ----- Proofs ----------------------------------------------------------

  /** The sibling's hash, on which side it stands, and where. */
  datatype ProofItem = ProofItem(hash: Digest, onLeft: bool, level: nat, nodeIndex: nat)

  function Sibling(index: nat): nat {
    if index % 2 == 0 then index + 1 else index - 1
  }

  /** The items of a proof from the leaf upwards. */
  function ProofUp(l: Level, index: nat, level: nat): seq<ProofItem>
    requires l != []
    decreases |l|
  {
    if |l| == 1 then []
    else
      (if Sibling(index) < |l| then [ProofItem(l[Sibling(index)], index % 2 == 1, level, Sibling(index))] else [])
      + ProofUp(Next(l), index / 2, level + 1)
  }

  function Combine(x: Digest, item: ProofItem): Digest {
    if item.onLeft then Sha256(item.hash + x) else Sha256(x + item.hash)
  }

  /** Folding a proof over a leaf, upwards. */
  function FoldUp(x: Digest, items: seq<ProofItem>): Digest
    decreases |items|
  {
    if items == [] then x else FoldUp(Combine(x, items[0]), items[1..])
  }

  lemma FoldFirst(x: Digest, item: ProofItem, rest: seq<ProofItem>)
    ensures FoldUp(x, [item] + rest) == FoldUp(Combine(x, item), rest)
  {
    assert ([item] + rest)[1..] == rest;
  }

  /** One step up: combining with the sibling, or promotion, gives the node of the next level. */
  lemma StepUp(l: Level, index: nat, item: ProofItem)
    requires index < |l| && |l| > 1
    ensures index / 2 < |Next(l)|
    ensures Sibling(index) < |l| && item.hash == l[Sibling(index)] && item.onLeft == (index % 2 == 1) ==>
              Combine(l[index], item) == Next(l)[index / 2]
    ensures Sibling(index) >= |l| ==> l[index] == Next(l)[index / 2]
  {
    NextAt(l, index / 2);
    assert index == 2 * (index / 2) + index % 2;
  }

  /** For every index the fold ends at the root. */
  lemma {:induction false} ProofLeadsToRoot(l: Level, index: nat, level: nat)
    requires index < |l|
    ensures FoldUp(l[index], ProofUp(l, index, level)) == Root(l)
    decreases |l|
  {
    hide Next, Combine;
    if |l| > 1 {
      var rest := ProofUp(Next(l), index / 2, level + 1);
      var s := Sibling(index);
      if s < |l| {
        var item := ProofItem(l[s], index % 2 == 1, level, s);
        StepUp(l, index, item);
        ProofLeadsToRoot(Next(l), index / 2, level + 1);
        FoldFirst(l[index], item, rest);
      } else {
        StepUp(l, index, ProofItem([], false, 0, 0));
        ProofLeadsToRoot(Next(l), index / 2, level + 1);
        assert [] + rest == rest;
      }
    }
  }

  /** The node of level `k` above a leaf. */
  function Ancestor(index: nat, k: nat): nat {
    if k == 0 then index else Ancestor(index / 2, k - 1)
  }

  /** The first `m` items are those below level `top`, and folding them over `x` gives `node`. */
  ghost predicate Reaches(x: Digest, items: seq<ProofItem>, m: nat, top: nat, node: Digest) {
    && m <= |items| && FoldUp(x, items[..m]) == node
    && (forall i :: 0 <= i < m ==> items[i].level < top)
    && (forall i :: m <= i < |items| ==> items[i].level >= top)
  }

  ghost predicate ReachesLevel(l: Level, index: nat, level: nat, k: nat, m: nat)
    requires index < |l| && k < |Levels(l)| && Ancestor(index, k) < |Levels(l)[k]|
  {
    Reaches(l[index], ProofUp(l, index, level), m, level + k, Levels(l)[k][Ancestor(index, k)])
  }

  lemma {:induction false} AncestorExists(l: Level, index: nat, k: nat)
    requires index < |l| && k < |Levels(l)|
    ensures Ancestor(index, k) < |Levels(l)[k]|
    decreases |l|
  {
    hide Next;
    if k > 0 {
      AncestorExists(Next(l), index / 2, k - 1);
    }
  }

  /** The items of the first `k` levels lead to the ancestor in level `k`, promoted or hashed. */
  lemma {:induction false} FoldReachesEachLevel(l: Level, index: nat, level: nat, k: nat)
    requires index < |l| && k < |Levels(l)|
    ensures Ancestor(index, k) < |Levels(l)[k]|
    ensures exists m: nat :: ReachesLevel(l, index, level, k, m)
    decreases |l|
  {
    hide Next, Levels, ReachesLevel;
    AncestorExists(l, index, k);
    if k == 0 {
      ReachesItself(l, index, level);
      assert ReachesLevel(l, index, level, k, 0);
    } else {
      LevelAbove(l, k);
      FoldReachesEachLevel(Next(l), index / 2, level + 1, k - 1);
      var m: nat :| ReachesLevel(Next(l), index / 2, level + 1, k - 1, m);
      var more := ReachesFromAbove(l, index, level, k, m);
      assert ReachesLevel(l, index, level, k, more);
    }
  }

  lemma ReachesItself(l: Level, index: nat, level: nat)
    requires index < |l|
    ensures ReachesLevel(l, index, level, 0, 0)
  {
    FoldNothing(l[index]);
    ItemLevels(l, index, level);
    assert ProofUp(l, index, level)[..0] == [];
  }

  lemma ReachesFromAbove(l: Level, index: nat, level: nat, k: nat, m: nat) returns (more: nat)
    requires index < |l| && 1 <= k < |Levels(l)| && Ancestor(index, k) < |Levels(l)[k]| && index / 2 < |Next(l)|
    requires ReachesLevel(Next(l), index / 2, level + 1, k - 1, m)
    ensures ReachesLevel(l, index, level, k, more)
  {
    var rest, s := ProofUp(Next(l), index / 2, level + 1), Sibling(index);
    var node := Levels(l)[k][Ancestor(index, k)];
    LevelAbove(l, k);
    assert Ancestor(index, k) == Ancestor(index / 2, k - 1);
    assert Reaches(Next(l)[index / 2], rest, m, level + k, node);
    hide Next, Levels, Ancestor, Reaches, Combine;
    var item := ProofItem(if s < |l| then l[s] else [], s < |l| && index % 2 == 1, level, s);
    StepUp(l, index, item);
    if s < |l| {
      ReachesWith(l[index], item, rest, m, level + k, node);
      more := m + 1;
    } else {
      assert ProofUp(l, index, level) == rest;
      more := m;
    }
  }

  lemma LevelAbove(l: Level, k: nat)
    requires l != [] && 1 <= k < |Levels(l)|
    ensures |l| > 1 && k - 1 < |Levels(Next(l))| && Levels(l)[k] == Levels(Next(l))[k - 1]
  {
    hide Next;
    assert |l| > 1;
    var above := Levels(Next(l));
    assert Levels(l) == [l] + above;
    assert ([l] + above)[k] == above[k - 1];
  }

  lemma ReachesWith(x: Digest, item: ProofItem, rest: seq<ProofItem>, m: nat, top: nat, node: Digest)
    requires Reaches(Combine(x, item), rest, m, top, node) && item.level < top
    ensures Reaches(x, [item] + rest, m + 1, top, node)
  {
    FoldFirst(x, item, rest[..m]);
    assert ([item] + rest)[..m + 1] == [item] + rest[..m];
  }

  lemma FoldNothing(x: Digest)
    ensures FoldUp(x, []) == x
  {
  }

  lemma {:induction false} ItemLevels(l: Level, index: nat, level: nat)
    requires l != []
    ensures forall i :: 0 <= i < |ProofUp(l, index, level)| ==> ProofUp(l, index, level)[i].level >= level
    decreases |l|
  {
    if |l| > 1 {
      ItemLevels(Next(l), index / 2, level + 1);
    }
  }

  // ----- Binding ---------------------------------------------------------

  ghost predicate SameWidths(a: Level, b: Level) {
    |a| == |b| && forall i :: 0 <= i < |a| ==> |a[i]| == |b[i]|
  }

  lemma NextSameWidths(a: Level, b: Level)
    requires SameWidths(a, b)
    ensures SameWidths(Next(a), Next(b))
  {
    forall i | 0 <= i < |Next(a)| ensures |Next(a)[i]| == |Next(b)[i]| {
      NextAt(a, i);
      NextAt(b, i);
    }
  }

  /** Two neighbouring levels: the lower ones are equal when the upper ones are, or a hash collides. */
  lemma LevelBinding(a: Level, b: Level) returns (x: Digest, y: Digest)
    requires SameWidths(a, b) && Next(a) == Next(b)
    ensures a == b || (x != y && Sha256(x) == Sha256(y))
  {
    x, y := [], [];
    if a != b {
      var i := FirstDifference(a, b);
      var j := i / 2;
      NextAt(a, j);
      NextAt(b, j);
      if 2 * j + 1 < |a| {
        x, y := a[2 * j] + a[2 * j + 1], b[2 * j] + b[2 * j + 1];
        HalvesOf(a[2 * j], a[2 * j + 1], b[2 * j], b[2 * j + 1]);
      }
    }
  }

  lemma HalvesOf(p: Digest, q: Digest, r: Digest, s: Digest)
    requires |p| == |r|
    ensures p + q == r + s <==> p == r && q == s
  {
    if p + q == r + s {
      assert p == (p + q)[..|p|] && q == (p + q)[|p|..] && r == (r + s)[..|r|] && s == (r + s)[|r|..];
    }
  }

  /** Equal roots over lists of equal length and widths: the lists are equal, or here are two inputs
      with one hash. */
  lemma {:induction false} Binding(a: Level, b: Level) returns (x: Digest, y: Digest)
    requires a != [] && SameWidths(a, b) && Root(a) == Root(b)
    ensures a == b || (x != y && Sha256(x) == Sha256(y))
    decreases |a|
  {
    x, y := [], [];
    hide Next;
    if |a| == 1 {
      assert a == [a[0]] && b == [b[0]];
    } else {
      NextSameWidths(a, b);
      x, y := Binding(Next(a), Next(b));
      if Next(a) == Next(b) {
        x, y := LevelBinding(a, b);
      }
    }
  }

  lemma FirstDifference(a: Level, b: Level) returns (i: nat)
    requires |a| == |b| && a != b
    ensures i < |a| && a[i] != b[i]
  {
    i :| 0 <= i < |a| && a[i] != b[i];
  }

  /** The widths matter: bytes can move between neighbouring leaves without touching the root. */
  lemma WidthsMatter(p: Digest, q: Digest, r: Digest)
    requires q != []
    ensures Root([p + q, r]) == Root([p, q + r]) && [p + q, r] != [p, q + r]
  {
    var a, b := [p + q, r], [p, q + r];
    assert (p + q) + r == p + (q + r);
    RootOfTwo(p + q, r);
    RootOfTwo(p, q + r);
    assert |a[0]| != |b[0]|;
  }

  /** So does the length: a node can stand in for the leaves below it. */
  lemma LengthMatters(p: Digest, q: Digest)
    ensures Root([p, q]) == Root([Sha256(p + q)])
  {
    RootOfTwo(p, q);
  }

  // ----- The loops -------------------------------------------------------

  /** One turn of the building loop. */
  method BuildNextLevel(currentLevel: Level) returns (nextLevel: Level)
    ensures nextLevel == Next(currentLevel)
  {
    nextLevel := [];
    var i := 0;
    while i < |currentLevel|
      invariant 0 <= i <= |currentLevel| + 1 && i % 2 == 0
      invariant i <= |currentLevel| || |currentLevel| % 2 == 1
      invariant |nextLevel| == i / 2
      invariant forall k :: 0 <= k < |nextLevel| ==> nextLevel[k] == Next(currentLevel)[k]
    {
      NextAt(currentLevel, i / 2);
      if i + 1 < |currentLevel| {
        var combined := currentLevel[i] + currentLevel[i + 1];
        nextLevel := nextLevel + [Sha256(combined)];
      } else {
        nextLevel := nextLevel + [currentLevel[i]];
      }
      i := i + 2;
    }
  }

  lemma LevelsStep(done: seq<Level>, l: Level)
    requires |l| > 1
    ensures done + Levels(l) == (done + [l]) + Levels(Next(l))
  {
    var above := Levels(Next(l));
    assert Levels(l) == [l] + above;
    hide Levels, Next;
    OneFurther(done, l, above);
  }

  lemma OneFurther(a: seq<Level>, x: Level, b: seq<Level>)
    ensures a + ([x] + b) == (a + [x]) + b
  {
  }

  lemma TopLevel(l: Level)
    requires |l| == 1
    ensures Levels(l) == [l]
  {
  }

  /** BuildMerkleTree: all levels and the root; nothing for no leaves. */
  method BuildMerkleTree(leaves: Level) returns (tree: seq<Level>, root: Digest)
    ensures leaves == [] ==> tree == [] && root == []
    ensures leaves != [] ==> tree == Levels(leaves) && root == TreeHash(leaves)
  {
    if |leaves| == 0 {
      return [], [];
    }
    hide Next, Levels;
    tree := [leaves];
    var currentLevel := leaves;
    assert [] + Levels(leaves) == Levels(leaves);
    while |currentLevel| > 1
      invariant currentLevel != [] && tree != [] && tree[|tree| - 1] == currentLevel
      invariant tree[..|tree| - 1] + Levels(currentLevel) == Levels(leaves)
      decreases |currentLevel|
    {
      ghost var done := tree[..|tree| - 1];
      var nextLevel := BuildNextLevel(currentLevel);
      LevelsStep(done, currentLevel);
      assert done + [currentLevel] == tree;
      tree := tree + [nextLevel];
      assert tree[..|tree| - 1] == done + [currentLevel];
      currentLevel := nextLevel;
    }
    TopLevel(currentLevel);
    assert tree[..|tree| - 1] + [currentLevel] == tree;
    RootOnTop(leaves);
    LevelsComputeTreeHash(leaves);
    root := tree[|tree| - 1][0];
  }

  function Reversed(s: seq<ProofItem>): (r: seq<ProofItem>)
    ensures |r| == |s| && forall i :: 0 <= i < |s| ==> r[i] == s[|s| - 1 - i]
  {
    seq(|s|, i requires 0 <= i < |s| => s[|s| - 1 - i])
  }

  /** The proof from the tree's levels, from level `k` on. */
  lemma ProofFrom(l: Level, index: nat, k: nat)
    requires index < |l| && k < |Levels(l)|
    ensures Ancestor(index, k) < |Levels(l)[k]| && Ancestor(index, 0) == index
    ensures k + 1 < |Levels(l)| ==>
      var c, i := Levels(l)[k], Ancestor(index, k);
      && Ancestor(index, k + 1) == i / 2
      && ProofUp(c, i, k) == (if Sibling(i) < |c| then [ProofItem(c[Sibling(i)], i % 2 == 1, k, Sibling(i))] else [])
                             + ProofUp(Levels(l)[k + 1], i / 2, k + 1)
    ensures k + 1 == |Levels(l)| ==> ProofUp(Levels(l)[k], Ancestor(index, k), k) == []
  {
    hide Next;
    AncestorExists(l, index, k);
    if k + 1 < |Levels(l)| {
      LevelsFollow(l, k);
      AncestorStep(index, k);
    }
  }

  lemma {:induction false} AncestorStep(index: nat, k: nat)
    ensures Ancestor(index, k + 1) == Ancestor(index, k) / 2
    decreases k
  {
    if k > 0 {
      AncestorStep(index / 2, k - 1);
    }
  }

  /** GetMerkleProof: each item goes to the front, so the list runs from the top down. */
  method GetMerkleProof(tree: seq<Level>, targetIndex: nat, ghost leaves: Level) returns (proof: seq<ProofItem>, ok: bool)
    requires leaves == [] ==> tree == []
    requires leaves != [] ==> tree == Levels(leaves) && targetIndex < |leaves|
    ensures ok <==> tree != []
    ensures ok ==> Reversed(proof) == ProofUp(leaves, targetIndex, 0)
    ensures ok ==> FoldUp(leaves[targetIndex], Reversed(proof)) == TreeHash(leaves)
  {
    if |tree| == 0 {
      return [], false;
    }
    proof := ProofDown(tree, targetIndex, leaves);
    ProofLeadsToRoot(leaves, targetIndex, 0);
    LevelsComputeTreeHash(leaves);
    ok := true;
  }

  method ProofDown(tree: seq<Level>, targetIndex: nat, ghost leaves: Level) returns (proof: seq<ProofItem>)
    requires leaves != [] && tree == Levels(leaves) && targetIndex < |leaves|
    ensures Reversed(proof) == ProofUp(leaves, targetIndex, 0)
  {
    hide Next, Levels, ProofUp, Ancestor, Reversed;
    proof := [];
    var index := targetIndex;
    var level := 0;
    ProofFrom(leaves, targetIndex, 0);
    assert Reversed([]) + ProofUp(leaves, targetIndex, 0) == ProofUp(leaves, targetIndex, 0);
    while level < |tree| - 1
      invariant 0 <= level < |tree| && index == Ancestor(targetIndex, level) && index < |tree[level]|
      invariant Reversed(proof) + ProofUp(tree[level], index, level) == ProofUp(leaves, targetIndex, 0)
    {
      ProofFrom(leaves, targetIndex, level);
      ProofFrom(leaves, targetIndex, level + 1);
      var currentLevel := tree[level];
      var siblingIndex := if index % 2 == 0 then index + 1 else index - 1;
      ghost var before := Reversed(proof);
      if siblingIndex < |currentLevel| {
        var item := ProofItem(currentLevel[siblingIndex], index % 2 == 1, level, siblingIndex);
        proof := [item] + proof;
        assert Reversed(proof) == before + [item];
        assert before + ([item] + ProofUp(tree[level + 1], index / 2, level + 1))
            == Reversed(proof) + ProofUp(tree[level + 1], index / 2, level + 1);
      } else {
        assert [] + ProofUp(tree[level + 1], index / 2, level + 1) == ProofUp(tree[level + 1], index / 2, level + 1);
      }
      index := index / 2;
      level := level + 1;
    }
    ProofFrom(leaves, targetIndex, level);
    assert Reversed(proof) + [] == Reversed(proof);
  }

  /** A pair of neighbours, as MerkleTree.GetProof lists them. */
  datatype ProofPair = ProofPair(level: nat, index: nat, current: Digest, siblingIndex: nat, sibling: Digest)

  function AsItem(p: ProofPair): ProofItem {
    ProofItem(p.sibling, p.index % 2 == 1, p.level, p.siblingIndex)
  }

  function AsItems(ps: seq<ProofPair>): (r: seq<ProofItem>)
    ensures |r| == |ps| && forall i :: 0 <= i < |ps| ==> r[i] == AsItem(ps[i])
  {
    seq(|ps|, i requires 0 <= i < |ps| => AsItem(ps[i]))
  }

  /** Each pair holds the node of its level that the fold has reached. */
  ghost predicate OnTheWay(ps: seq<ProofPair>, leaves: Level, target: nat)
    requires leaves != []
  {
    forall i :: 0 <= i < |ps| ==>
      && ps[i].level < |Levels(leaves)| && ps[i].index == Ancestor(target, ps[i].level)
      && ps[i].index < |Levels(leaves)[ps[i].level]| && ps[i].current == Levels(leaves)[ps[i].level][ps[i].index]
  }

  class MerkleTree {
    var tree: seq<Level>
    ghost var leaves: Level

    ghost predicate Valid()
      reads this
    {
      if leaves == [] then tree == [] else tree == Levels(leaves)
    }

    constructor ()
      ensures Valid() && leaves == []
    {
      tree, leaves := [], [];
    }

    method GetRoot() returns (root: Digest)
      requires Valid()
      ensures leaves != [] ==> root == TreeHash(leaves)
      ensures leaves == [] ==> root == []
    {
      if |tree| == 0 {
        return [];
      }
      RootOnTop(leaves);
      LevelsComputeTreeHash(leaves);
      root := tree[|tree| - 1][0];
    }

    /** An error for no leaves, and the old tree is kept. */
    method Build(newLeaves: Level) returns (err: bool)
      requires Valid()
      modifies this
      ensures Valid() && (err <==> newLeaves == [])
      ensures leaves == if err then old(leaves) else newLeaves
    {
      if |newLeaves| == 0 {
        return true;
      }
      var t, root := BuildMerkleTree(newLeaves);
      tree := t;
      leaves := newLeaves;
      err := false;
    }

    method GetProof(targetIndex: nat) returns (proofPairs: seq<ProofPair>)
      requires Valid() && (leaves != [] ==> targetIndex < |leaves|)
      ensures leaves == [] ==> proofPairs == []
      ensures leaves != [] ==> Reversed(AsItems(proofPairs)) == ProofUp(leaves, targetIndex, 0)
      ensures leaves != [] ==> OnTheWay(proofPairs, leaves, targetIndex)
      ensures leaves != [] ==> FoldUp(leaves[targetIndex], Reversed(AsItems(proofPairs))) == TreeHash(leaves)
    {
      if |tree| == 0 {
        return [];
      }
      var up := PairsUp(targetIndex);
      proofPairs := ReverseInPlace(up);
      ReversedTwice(up, proofPairs);
      ProofLeadsToRoot(leaves, targetIndex, 0);
      LevelsComputeTreeHash(leaves);
    }

    method PairsUp(targetIndex: nat) returns (proofPairs: seq<ProofPair>)
      requires Valid() && leaves != [] && targetIndex < |leaves|
      ensures AsItems(proofPairs) == ProofUp(leaves, targetIndex, 0) && OnTheWay(proofPairs, leaves, targetIndex)
    {
      hide Next, Levels, ProofUp, Ancestor;
      proofPairs := [];
      var index := targetIndex;
      var level := 0;
      ProofFrom(leaves, targetIndex, 0);
      assert AsItems([]) + ProofUp(leaves, targetIndex, 0) == ProofUp(leaves, targetIndex, 0);
      while level < |tree| - 1
        invariant 0 <= level < |tree| && index == Ancestor(targetIndex, level) && index < |tree[level]|
        invariant OnTheWay(proofPairs, leaves, targetIndex)
        invariant AsItems(proofPairs) + ProofUp(tree[level], index, level) == ProofUp(leaves, targetIndex, 0)
      {
        ProofFrom(leaves, targetIndex, level);
        ProofFrom(leaves, targetIndex, level + 1);
        var currentLevel := tree[level];
        var siblingIndex := if index % 2 == 0 then index + 1 else index - 1;
        ghost var rest := ProofUp(tree[level + 1], index / 2, level + 1);
        if siblingIndex >= |currentLevel| {
          assert [] + rest == rest;
          index := index / 2;
          level := level + 1;
          continue;
        }
        var pair := ProofPair(level, index, currentLevel[index], siblingIndex, currentLevel[siblingIndex]);
        OneMoreItem(proofPairs, pair, rest);
        proofPairs := proofPairs + [pair];
        index := index / 2;
        level := level + 1;
      }
      ProofFrom(leaves, targetIndex, level);
      assert AsItems(proofPairs) + [] == AsItems(proofPairs);
    }
  }

  lemma OneMoreItem(pairs: seq<ProofPair>, pair: ProofPair, rest: seq<ProofItem>)
    ensures AsItems(pairs + [pair]) + rest == AsItems(pairs) + ([AsItem(pair)] + rest)
  {
    assert AsItems(pairs + [pair]) == AsItems(pairs) + [AsItem(pair)];
  }

  /** Swapping from both ends towards the middle. */
  method ReverseInPlace(s: seq<ProofPair>) returns (r: seq<ProofPair>)
    ensures |r| == |s| && forall k :: 0 <= k < |s| ==> r[k] == s[|s| - 1 - k]
  {
    r := s;
    var i, j := 0, |s| - 1;
    while i < j
      invariant 0 <= i && i + j == |s| - 1 && |r| == |s| && i <= j + 1
      invariant forall k :: 0 <= k < i ==> r[k] == s[|s| - 1 - k]
      invariant forall k :: i <= k <= j ==> r[k] == s[k]
      invariant forall k :: j < k < |s| ==> r[k] == s[|s| - 1 - k]
    {
      r := r[i := r[j]][j := r[i]];
      i, j := i + 1, j - 1;
    }
  }

  lemma ReversedTwice(up: seq<ProofPair>, down: seq<ProofPair>)
    requires |up| == |down| && forall k :: 0 <= k < |up| ==> down[k] == up[|up| - 1 - k]
    ensures Reversed(AsItems(down)) == AsItems(up)
    ensures forall leaves: Level, target: nat :: leaves != [] && OnTheWay(up, leaves, target) ==> OnTheWay(down, leaves, target)
  {
  }
}
