/** InsertMigratedLeaves on the values of the trie: a bulk insertion that only fills gaps. */
module Migration {
  import opened VerkleTypes
  import opened ByteOrder
  import opened Trie

  datatype Migrated = Migrated(stem: Stem, values: Values)

  /** The migrated values a leaf has no value for. */
  function Missing(old_: Values, vs: Values): (r: Values)
    ensures forall i :: 0 <= i < NODE_WIDTH ==> r[i] == if old_[i] == Nil then vs[i] else Nil
  {
    seq(NODE_WIDTH, i requires 0 <= i < NODE_WIDTH => if old_[i] == Nil then vs[i] else Nil)
  }

  /** What of `vs` is new for a stem. */
  function MissingAt(entry: Lookup, vs: Values): Values {
    match entry
    case Absent => vs
    case Found(old_) => Missing(old_, vs)
  }

  /** Insertion of what is missing. */
  function Fill(t: Tree, depth: nat, stem: Stem, vs: Values): (r: Tree)
    requires depth < STEM_SIZE && t.Node? && Valid(t, stem[..depth])
    ensures r.Node? && Valid(r, stem[..depth])
  {
    Insert(t, depth, stem, MissingAt(Find(t, depth, stem), vs))
  }

  function FillAll(t: Tree, leaves: seq<Migrated>): (r: Tree)
    requires t.Node? && Valid(t, [])
    ensures r.Node? && Valid(r, [])
  {
    if leaves == [] then t
    else
      var l := leaves[|leaves| - 1];
      var before := FillAll(t, leaves[..|leaves| - 1]);
      assert l.stem[..0] == [];
      Fill(before, 0, l.stem, l.values)
  }

  // ----- Forks -----------------------------------------------------------

  /** firstDiffByteIdx. */
  method FirstDiffByteIdx(stem1: Stem, stem2: Stem) returns (idx: nat)
    requires stem1 != stem2
    ensures idx < STEM_SIZE && stem1[..idx] == stem2[..idx] && stem1[idx] != stem2[idx]
  {
    idx := 0;
    while idx < STEM_SIZE
      invariant 0 <= idx <= STEM_SIZE && stem1[..idx] == stem2[..idx]
    {
      if stem1[idx] != stem2[idx] {
        return;
      }
      assert stem1[..idx + 1] == stem1[..idx] + [stem1[idx]] && stem2[..idx + 1] == stem2[..idx] + [stem2[idx]];
      idx := idx + 1;
    }
    EqualPrefixes(stem1, stem2);
    assert false;
  }

  lemma EqualPrefixes(stem1: Stem, stem2: Stem)
    ensures stem1[..STEM_SIZE] == stem2[..STEM_SIZE] ==> stem1 == stem2
  {
    assert stem1[..STEM_SIZE] == stem1 && stem2[..STEM_SIZE] == stem2;
  }

  /** The internal nodes from `depth` down to the fork at `idx`, with the two leaves in the last. */
  function Fork(leaf: Tree, other: Tree, depth: nat, idx: nat): (r: Tree)
    requires leaf.Leaf? && other.Leaf? && depth <= idx < STEM_SIZE
    ensures r.Node? && |r.children| == NODE_WIDTH
    decreases idx - depth
  {
    if depth == idx then Node(NoChildren()[leaf.stem[idx] := leaf][other.stem[idx] := other])
    else Node(NoChildren()[other.stem[depth] := Fork(leaf, other, depth + 1, idx)])
  }

  /** The recursive split of an insertion makes the same nodes. */
  lemma {:induction false} SplitIsFork(leaf: Tree, depth: nat, stem: Stem, vs: Values, idx: nat)
    requires leaf.Leaf? && depth <= idx < STEM_SIZE && Valid(leaf, stem[..depth])
    requires leaf.stem[..idx] == stem[..idx] && leaf.stem[idx] != stem[idx]
    ensures InsertChild(leaf, depth, stem, vs) == Fork(leaf, Leaf(stem, vs), depth, idx)
    decreases idx - depth
  {
    BranchIsValid(leaf, stem[..depth]);
    var b := Branch(leaf, depth);
    PathStep(stem, depth);
    assert InsertChild(leaf, depth, stem, vs) == Insert(b, depth, stem, vs);
    if depth == idx {
      assert InsertChild(Empty, depth + 1, stem, vs) == Leaf(stem, vs);
      assert b.children[stem[depth]] == Empty;
    } else {
      assert leaf.stem[depth] == leaf.stem[..idx][depth] == stem[..idx][depth] == stem[depth];
      SplitIsFork(leaf, depth + 1, stem, vs, idx);
      assert b.children[stem[depth] := Fork(leaf, Leaf(stem, vs), depth + 1, idx)]
          == NoChildren()[stem[depth] := Fork(leaf, Leaf(stem, vs), depth + 1, idx)];
    }
  }

  // ----- Walking down ----------------------------------------------------

  /** The child slot that a stem leads to, `steps` internal nodes further down. */
  function Slot(t: Tree, depth: nat, stem: Stem, steps: nat): (c: Tree)
    requires depth + steps < STEM_SIZE && Passable(t, depth, stem, steps)
    requires t.Node? && Valid(t, stem[..depth])
    ensures Valid(c, stem[..depth + steps + 1])
    decreases steps
  {
    PathStep(stem, depth);
    if steps == 0 then t.children[stem[depth]]
    else Slot(t.children[stem[depth]], depth + 1, stem, steps - 1)
  }

  /** The stem passes `steps` internal nodes below `t`. */
  predicate Passable(t: Tree, depth: nat, stem: Stem, steps: nat)
    decreases steps
  {
    steps == 0 || (t.Node? && depth < STEM_SIZE && |t.children| == NODE_WIDTH && t.children[stem[depth]].Node?
                   && Passable(t.children[stem[depth]], depth + 1, stem, steps - 1))
  }

  /** The tree with another occupant in that slot. */
  function WithSlot(t: Tree, depth: nat, stem: Stem, steps: nat, c: Tree): (r: Tree)
    requires depth + steps < STEM_SIZE && Passable(t, depth, stem, steps)
    requires t.Node? && Valid(t, stem[..depth])
    ensures r.Node?
    decreases steps
  {
    PathStep(stem, depth);
    Node(t.children[stem[depth] := if steps == 0 then c else WithSlot(t.children[stem[depth]], depth + 1, stem, steps - 1, c)])
  }

  /** Insertion changes the slot it walks to, and finds there what a lookup finds. */
  lemma {:induction false} InsertAtSlot(t: Tree, depth: nat, stem: Stem, vs: Values, steps: nat)
    requires t.Node? && depth + steps < STEM_SIZE && Valid(t, stem[..depth]) && Passable(t, depth, stem, steps)
    ensures var c := Slot(t, depth, stem, steps);
            && Insert(t, depth, stem, vs) == WithSlot(t, depth, stem, steps, InsertChild(c, depth + steps + 1, stem, vs))
            && Find(t, depth, stem) == Find(c, depth + steps + 1, stem)
    decreases steps
  {
    PathStep(stem, depth);
    if steps > 0 {
      InsertAtSlot(t.children[stem[depth]], depth + 1, stem, vs, steps - 1);
    }
  }

  lemma {:induction false} OneStepFurther(t: Tree, depth: nat, stem: Stem, steps: nat)
    requires t.Node? && depth + steps < STEM_SIZE && Valid(t, stem[..depth]) && Passable(t, depth, stem, steps)
    requires Slot(t, depth, stem, steps).Node?
    ensures depth + steps + 1 < STEM_SIZE && Passable(t, depth, stem, steps + 1)
    ensures Slot(t, depth, stem, steps + 1) == Slot(t, depth, stem, steps).children[stem[depth + steps + 1]]
    decreases steps
  {
    PathStep(stem, depth);
    if steps > 0 {
      OneStepFurther(t.children[stem[depth]], depth + 1, stem, steps - 1);
    }
  }

  // ----- The loops -------------------------------------------------------

  /** The loop that makes the nodes down to the fork; written from the fork upwards. */
  method BuildFork(leaf: Tree, other: Tree, depth: nat, idx: nat) returns (top: Tree)
    requires leaf.Leaf? && other.Leaf? && depth <= idx < STEM_SIZE
    ensures top == Fork(leaf, other, depth, idx)
  {
    top := Node(NoChildren()[leaf.stem[idx] := leaf][other.stem[idx] := other]);
    var i := idx;
    while i > depth
      invariant depth <= i <= idx && top == Fork(leaf, other, i, idx)
    {
      i := i - 1;
      top := Node(NoChildren()[other.stem[i] := top]);
    }
  }

  /** One migrated leaf: down to the parent, then by what the slot holds. */
  method InsertMigratedLeaf(t: Tree, l: Migrated) returns (r: Tree, err: bool)
    requires t.Node? && Valid(t, [])
    ensures l.stem[..0] == [] && (err <==> MissingTooLong(t, l))
    ensures !err ==> r == Fill(t, 0, l.stem, l.values)
  {
    hide Valid, Find, Insert, InsertChild, Passable, Slot, WithSlot, MissingTooLong;
    assert l.stem[..0] == [];
    err := false;
    var steps: nat := 0;
    StartsAtRoot(t, l.stem);
    var slot := t.children[l.stem[0]];
    while slot.Node?
      invariant 0 <= steps < STEM_SIZE && Passable(t, 0, l.stem, steps)
      invariant slot == Slot(t, 0, l.stem, steps)
      decreases STEM_SIZE - steps
    {
      OneStepFurther(t, 0, l.stem, steps);
      SlotIsWide(slot, l.stem, steps + 1);
      steps := steps + 1;
      slot := slot.children[l.stem[steps]];
    }
    InsertAtSlot(t, 0, l.stem, MissingAt(Find(t, 0, l.stem), l.values), steps);
    SlotOutcome(t, l, slot, steps + 1);
    var occupant: Tree;
    match slot {
      case Empty =>
        occupant := Leaf(l.stem, l.values);
      case Leaf(stem, values) =>
        if stem == l.stem {
          var nonPresentValues := Missing(values, l.values);
          if exists i :: 0 <= i < NODE_WIDTH && TooLong(nonPresentValues[i]) {
            return t, true;
          }
          occupant := Leaf(stem, Merge(values, nonPresentValues));
        } else {
          var idx := FirstDiffByteIdx(stem, l.stem);
          ForkIsBelow(slot, l.stem, steps + 1, idx);
          SplitIsFork(slot, steps + 1, l.stem, l.values, idx);
          occupant := BuildFork(slot, Leaf(l.stem, l.values), steps + 1, idx);
        }
      case Node(_) =>
    }
    r := WithSlot(t, 0, l.stem, steps, occupant);
  }

  /** Merging into an existing leaf fails on an over-long missing value. */
  ghost predicate MissingTooLong(t: Tree, l: Migrated)
    requires t.Node? && Valid(t, [])
  {
    Find(t, 0, l.stem).Found? && AnyTooLong(MissingAt(Find(t, 0, l.stem), l.values))
  }

  lemma StartsAtRoot(t: Tree, stem: Stem)
    requires t.Node? && Valid(t, [])
    ensures stem[..0] == [] && |t.children| == NODE_WIDTH && Passable(t, 0, stem, 0) && Slot(t, 0, stem, 0) == t.children[stem[0]]
  {
    PathStep(stem, 0);
  }

  lemma SlotIsWide(c: Tree, stem: Stem, depth: nat)
    requires c.Node? && depth <= STEM_SIZE && Valid(c, stem[..depth])
    ensures |c.children| == NODE_WIDTH
  {
  }

  lemma ForkIsBelow(c: Tree, stem: Stem, depth: nat, idx: nat)
    requires c.Leaf? && depth <= STEM_SIZE && Valid(c, stem[..depth]) && idx < STEM_SIZE && c.stem[idx] != stem[idx]
    ensures depth <= idx
  {
    forall j | 0 <= j < depth ensures c.stem[j] == stem[j] {
      assert c.stem[..depth][j] == stem[..depth][j];
    }
  }

  /** What an insertion makes of the slot, and when merging would fail. */
  lemma SlotOutcome(t: Tree, l: Migrated, c: Tree, depth: nat)
    requires t.Node? && Valid(t, []) && depth <= STEM_SIZE && Valid(c, l.stem[..depth]) && !c.Node?
    requires Find(t, 0, l.stem) == Find(c, depth, l.stem)
    ensures var vs := MissingAt(Find(t, 0, l.stem), l.values);
            && (c.Empty? ==> !MissingTooLong(t, l) && InsertChild(c, depth, l.stem, vs) == Leaf(l.stem, l.values))
            && (c.Leaf? && c.stem == l.stem ==>
                  && (MissingTooLong(t, l) <==> AnyTooLong(Missing(c.values, l.values)))
                  && InsertChild(c, depth, l.stem, vs) == Leaf(l.stem, Merge(c.values, Missing(c.values, l.values))))
            && (c.Leaf? && c.stem != l.stem ==> !MissingTooLong(t, l) && vs == l.values)
  {
  }

  predicate SortedLeaves(leaves: seq<Migrated>) {
    forall i, j :: 0 <= i < j < |leaves| ==> !Less(leaves[j].stem, leaves[i].stem)
  }

  /** Leaf `i` cannot be merged into what the leaves before it left behind. */
  ghost predicate Fails(t: Tree, leaves: seq<Migrated>, i: nat)
    requires t.Node? && Valid(t, []) && i < |leaves|
  {
    MissingTooLong(FillAll(t, leaves[..i]), leaves[i])
  }

  ghost predicate AnyFails(t: Tree, leaves: seq<Migrated>)
    requires t.Node? && Valid(t, [])
  {
    exists i :: 0 <= i < |leaves| && Fails(t, leaves, i)
  }

  /** The loop over the leaves of one subtree of the root. */
  method InsertMigratedLeavesSubtree(t: Tree, leaves: seq<Migrated>) returns (r: Tree, err: bool)
    requires t.Node? && Valid(t, [])
    ensures err <==> AnyFails(t, leaves)
    ensures !err ==> r == FillAll(t, leaves)
  {
    hide MissingTooLong;
    r, err := t, false;
    var i := 0;
    while i < |leaves|
      invariant 0 <= i <= |leaves| && !err && r == FillAll(t, leaves[..i])
      invariant forall j :: 0 <= j < i ==> !Fails(t, leaves, j)
    {
      assert leaves[..i + 1][..i] == leaves[..i];
      assert Fails(t, leaves, i) <==> MissingTooLong(r, leaves[i]);
      var next;
      next, err := InsertMigratedLeaf(r, leaves[i]);
      if err {
        return;
      }
      r := next;
      i := i + 1;
    }
    assert leaves[..i] == leaves;
  }

  lemma {:induction false} FillAllConcat(t: Tree, a: seq<Migrated>, b: seq<Migrated>)
    requires t.Node? && Valid(t, [])
    ensures FillAll(t, a + b) == FillAll(FillAll(t, a), b)
    decreases |b|
  {
    if b == [] {
      assert a + b == a;
    } else {
      FillAllConcat(t, a, b[..|b| - 1]);
      assert (a + b)[..|a + b| - 1] == a + b[..|b| - 1];
    }
  }

  /** InsertMigratedLeaves after sorting: the leaves are split where the first byte changes, and each
      stretch goes to its own subtree. */
  method InsertMigratedLeaves(t: Tree, leaves: seq<Migrated>) returns (r: Tree, err: bool)
    requires t.Node? && Valid(t, []) && SortedLeaves(leaves)
    ensures err <==> AnyFails(t, leaves)
    ensures !err ==> r == FillAll(t, leaves)
  {
    hide MissingTooLong, Valid, FillAll, Fails;
    r, err := t, false;
    var currStemFirstByte := 0;
    FillNone(t);
    assert leaves[..0] == [];
    var i := 0;
    while i < |leaves|
      invariant 0 <= currStemFirstByte <= i <= |leaves| && !err && r == FillAll(t, leaves[..currStemFirstByte])
      invariant forall j :: 0 <= j < currStemFirstByte ==> !Fails(t, leaves, j)
    {
      if leaves[currStemFirstByte].stem[0] != leaves[i].stem[0] {
        r, err := Stretch(t, r, leaves, currStemFirstByte, i);
        if err {
          return;
        }
        currStemFirstByte := i;
      }
      i := i + 1;
    }
    r, err := Stretch(t, r, leaves, currStemFirstByte, |leaves|);
    assert leaves[..|leaves|] == leaves;
  }

  method Stretch(ghost t: Tree, before: Tree, leaves: seq<Migrated>, start: nat, end: nat) returns (r: Tree, err: bool)
    requires t.Node? && Valid(t, []) && start <= end <= |leaves| && before == FillAll(t, leaves[..start])
    ensures err <==> exists i :: start <= i < end && Fails(t, leaves, i)
    ensures !err ==> r == FillAll(t, leaves[..end])
  {
    hide MissingTooLong, FillAll, Valid, Fails;
    FillAllConcat(t, leaves[..start], leaves[start..end]);
    assert leaves[..start] + leaves[start..end] == leaves[..end];
    r, err := InsertMigratedLeavesSubtree(before, leaves[start..end]);
    forall k | 0 <= k < end - start ensures Fails(before, leaves[start..end], k) <==> Fails(t, leaves, start + k) {
      StretchFails(t, leaves, start, end, k);
    }
    if err {
      ghost var k :| 0 <= k < end - start && Fails(before, leaves[start..end], k);
      assert Fails(t, leaves, start + k);
    }
    if exists i :: start <= i < end && Fails(t, leaves, i) {
      ghost var i :| start <= i < end && Fails(t, leaves, i);
      assert Fails(before, leaves[start..end], i - start);
    }
  }

  lemma StretchFails(t: Tree, leaves: seq<Migrated>, start: nat, end: nat, k: nat)
    requires t.Node? && Valid(t, []) && start <= end <= |leaves| && k < end - start
    ensures Fails(FillAll(t, leaves[..start]), leaves[start..end], k) <==> Fails(t, leaves, start + k)
  {
    hide FillAll, Valid, MissingTooLong;
    var some := leaves[start..end][..k];
    CutAgain(leaves, start, end, k);
    FillAllConcat(t, leaves[..start], some);
  }

  lemma CutAgain(leaves: seq<Migrated>, start: nat, end: nat, k: nat)
    requires start <= end <= |leaves| && k < end - start
    ensures leaves[..start] + leaves[start..end][..k] == leaves[..start + k] && leaves[start..end][k] == leaves[start + k]
  {
  }

  lemma FillNone(t: Tree)
    requires t.Node? && Valid(t, [])
    ensures FillAll(t, []) == t
  {
  }

  // ----- Stretches do not meet ---------------------------------------------

  predicate AllBelow(leaves: seq<Migrated>, b: byte) {
    forall i :: 0 <= i < |leaves| ==> leaves[i].stem[0] == b
  }

  /** Leaves with one first byte read and change one child of the root only. */
  lemma {:induction false} FillsOneChild(t: Tree, u: Tree, leaves: seq<Migrated>, b: byte)
    requires t.Node? && Valid(t, []) && u.Node? && Valid(u, []) && AllBelow(leaves, b) && t.children[b] == u.children[b]
    ensures var t', u' := FillAll(t, leaves), FillAll(u, leaves);
            && |t'.children| == NODE_WIDTH && t'.children[b] == u'.children[b]
            && forall j :: 0 <= j < NODE_WIDTH && j != b ==> t'.children[j] == t.children[j]
  {
    if leaves != [] {
      var l, init := leaves[|leaves| - 1], leaves[..|leaves| - 1];
      FillsOneChild(t, u, init, b);
      FillIsLocal(FillAll(t, init), FillAll(u, init), l);
    }
  }

  lemma FillIsLocal(t: Tree, u: Tree, l: Migrated)
    requires t.Node? && Valid(t, []) && u.Node? && Valid(u, []) && t.children[l.stem[0]] == u.children[l.stem[0]]
    ensures l.stem[..0] == []
    ensures var t', u', b := Fill(t, 0, l.stem, l.values), Fill(u, 0, l.stem, l.values), l.stem[0];
            && |t'.children| == NODE_WIDTH && t'.children[b] == u'.children[b]
            && forall j :: 0 <= j < NODE_WIDTH && j != b ==> t'.children[j] == t.children[j]
    ensures MissingTooLong(t, l) <==> MissingTooLong(u, l)
  {
    assert l.stem[..0] == [];
    PathStep(l.stem, 0);
    hide InsertChild, Merge, MissingAt;
    assert Find(t, 0, l.stem) == Find(t.children[l.stem[0]], 1, l.stem);
    assert Find(u, 0, l.stem) == Find(u.children[l.stem[0]], 1, l.stem);
  }

  lemma FailsLocally(t: Tree, u: Tree, leaves: seq<Migrated>, b: byte, i: nat)
    requires t.Node? && Valid(t, []) && u.Node? && Valid(u, []) && AllBelow(leaves, b) && t.children[b] == u.children[b]
    requires i < |leaves|
    ensures Fails(t, leaves, i) <==> Fails(u, leaves, i)
  {
    FillsOneChild(t, u, leaves[..i], b);
    hide FillAll, MissingTooLong;
    FillIsLocal(FillAll(t, leaves[..i]), FillAll(u, leaves[..i]), leaves[i]);
  }

  /** Two stretches can be inserted in either order: the tree is the same, and neither decides whether the
      other fails. This is what lets the source insert them in parallel. */
  lemma StretchesAreIndependent(t: Tree, xs: seq<Migrated>, ys: seq<Migrated>, x: byte, y: byte)
    requires t.Node? && Valid(t, []) && AllBelow(xs, x) && AllBelow(ys, y) && x != y
    ensures FillAll(FillAll(t, xs), ys) == FillAll(FillAll(t, ys), xs)
    ensures AnyFails(FillAll(t, xs), ys) <==> AnyFails(t, ys)
    ensures AnyFails(FillAll(t, ys), xs) <==> AnyFails(t, xs)
  {
    var tx, ty := FillAll(t, xs), FillAll(t, ys);
    FillsOneChild(t, t, xs, x);
    FillsOneChild(t, t, ys, y);
    FillsOneChild(tx, t, ys, y);
    FillsOneChild(ty, t, xs, x);
    forall i | 0 <= i < |ys| ensures Fails(tx, ys, i) <==> Fails(t, ys, i) {
      FailsLocally(tx, t, ys, y, i);
    }
    forall i | 0 <= i < |xs| ensures Fails(ty, xs, i) <==> Fails(t, xs, i) {
      FailsLocally(ty, t, xs, x, i);
    }
    hide FillAll, Fails;
    SameChildren(FillAll(tx, ys), FillAll(ty, xs));
  }

  lemma SameChildren(t: Tree, u: Tree)
    requires t.Node? && u.Node? && |t.children| == |u.children| == NODE_WIDTH
    ensures (forall j :: 0 <= j < NODE_WIDTH ==> t.children[j] == u.children[j]) ==> t == u
  {
    if forall j :: 0 <= j < NODE_WIDTH ==> t.children[j] == u.children[j] {
      assert t.children == u.children;
    }
  }

  // ----- Insert if absent ------------------------------------------------

  /** Nil or not empty. */
  predicate Filled(vs: Values) {
    forall i :: 0 <= i < NODE_WIDTH ==> vs[i] == Nil || vs[i].Len() > 0
  }

  /** The first migrated value for a key. */
  function FirstMigrated(leaves: seq<Migrated>, key: Key): Value {
    if leaves == [] then Nil
    else
      var before, l := FirstMigrated(leaves[..|leaves| - 1], key), leaves[|leaves| - 1];
      if before == Nil && l.stem == KeyToStem(key) then l.values[Suffix(key)] else before
  }

  lemma FillOne(t: Tree, l: Migrated, key: Key)
    requires t.Node? && Valid(t, []) && Filled(l.values)
    ensures l.stem[..0] == []
    ensures Get(Fill(t, 0, l.stem, l.values), key)
         == if Get(t, key) == Nil && l.stem == KeyToStem(key) then l.values[Suffix(key)] else Get(t, key)
  {
    assert l.stem[..0] == [];
    FindInNodeAfterInsert(t, 0, l.stem, MissingAt(Find(t, 0, l.stem), l.values), KeyToStem(key));
    hide Find, Insert;
  }

  /** Every key keeps the value it has; a key without one takes the first migrated value; the path
      invariant and the canonical shape stay. */
  lemma {:induction false} FillsOnlyGaps(t: Tree, leaves: seq<Migrated>)
    requires t.Node? && Valid(t, []) && forall i :: 0 <= i < |leaves| ==> Filled(leaves[i].values)
    ensures forall key: Key ::
      Get(FillAll(t, leaves), key) == if Get(t, key) != Nil then Get(t, key) else FirstMigrated(leaves, key)
    ensures Valid(FillAll(t, leaves), []) && (Canonical(t, 0) ==> Canonical(FillAll(t, leaves), 0))
  {
    if leaves != [] {
      var l, init := leaves[|leaves| - 1], leaves[..|leaves| - 1];
      FillsOnlyGaps(t, init);
      var before := FillAll(t, init);
      assert l.stem[..0] == [];
      forall key: Key ensures Get(FillAll(t, leaves), key) == if Get(t, key) != Nil then Get(t, key) else FirstMigrated(leaves, key) {
        FillOne(before, l, key);
      }
      if Canonical(t, 0) {
        InsertBelow(before, 0, l.stem, MissingAt(Find(before, 0, l.stem), l.values));
      }
    }
  }
}
