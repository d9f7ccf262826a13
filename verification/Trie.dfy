/** The trie as a value: what insertion, lookup and deletion compute, and why the
    result behaves like a finite map with a canonical shape. */
module Trie {
  import opened Pedersen
  import opened VerkleTypes

  datatype Tree =
    | Empty
    | Leaf(stem: Stem, values: Values)
    | Node(children: seq<Tree>)

  datatype Lookup = Absent | Found(values: Values)

  function NoChildren(): (r: seq<Tree>)
    ensures |r| == NODE_WIDTH
    ensures forall i :: 0 <= i < NODE_WIDTH ==> r[i] == Empty
  {
    seq(NODE_WIDTH, _ => Empty)
  }

  function New(): Tree {
    Node(NoChildren())
  }

  // ----- Shape -----------------------------------------------------------

  predicate Extends(stem: Stem, path: seq<byte>) {
    |path| <= STEM_SIZE && stem[..|path|] == path
  }

  /** The path invariant: a leaf's stem extends its path, and internal nodes sit at depth 30 or less. */
  ghost predicate Valid(t: Tree, path: seq<byte>) {
    match t
    case Empty => true
    case Leaf(stem, _) => Extends(stem, path)
    case Node(children) =>
      && |path| < STEM_SIZE
      && |children| == NODE_WIDTH
      && forall i :: 0 <= i < NODE_WIDTH ==> Valid(children[i], path + [i])
  }

  function Find(t: Tree, depth: nat, stem: Stem): Lookup
    decreases t
  {
    match t
    case Empty => Absent
    case Leaf(s, vs) => if s == stem then Found(vs) else Absent
    case Node(children) =>
      if depth < STEM_SIZE && |children| == NODE_WIDTH then Find(children[stem[depth]], depth + 1, stem) else Absent
  }

  function Get(t: Tree, key: Key): Value {
    match Find(t, 0, KeyToStem(key))
    case Absent => Nil
    case Found(vs) => vs[Suffix(key)]
  }

  /** The commitment of a subtree computed from scratch. */
  function Commitment(t: Tree): Point {
    match t
    case Empty => IDENTITY
    case Leaf(stem, vs) => LeafCommitment(stem, vs)
    case Node(children) => Commit(ChildScalars(children))
  }

  function ChildScalars(children: seq<Tree>): (f: Poly)
    ensures |f| == |children|
    ensures forall i :: 0 <= i < |children| ==> f[i] == MapToScalarField(Commitment(children[i]))
  {
    seq(|children|, i requires 0 <= i < |children| => MapToScalarField(Commitment(children[i])))
  }

  /** The values slice Insert builds for one key. */
  function Single(key: Key, value: Value): Values {
    EmptyValues()[Suffix(key) := value]
  }

  // ----- Insertion -------------------------------------------------------

  /** A fresh internal node at `depth` holding only `leaf`. */
  function Branch(leaf: Tree, depth: nat): (r: Tree)
    requires leaf.Leaf? && depth < STEM_SIZE
    ensures r.Node? && |r.children| == NODE_WIDTH
  {
    Node(NoChildren()[leaf.stem[depth] := leaf])
  }

  lemma BranchIsValid(leaf: Tree, path: seq<byte>)
    requires leaf.Leaf? && Valid(leaf, path) && |path| < STEM_SIZE
    ensures Valid(Branch(leaf, |path|), path)
  {
    assert leaf.stem[..|path| + 1] == path + [leaf.stem[|path|]];
  }

  /** Two different stems that share the path of a leaf leave room for another branching byte. */
  lemma SplitRoom(leaf: Tree, depth: nat, stem: Stem)
    requires leaf.Leaf? && depth <= STEM_SIZE && Valid(leaf, stem[..depth]) && leaf.stem != stem
    ensures depth < STEM_SIZE && Valid(Branch(leaf, depth), stem[..depth])
  {
    assert depth < STEM_SIZE;
    BranchIsValid(leaf, stem[..depth]);
  }

  /** Inserting below the internal node `t` at `depth`. */
  function Insert(t: Tree, depth: nat, stem: Stem, vs: Values): (r: Tree)
    requires depth < STEM_SIZE && t.Node? && Valid(t, stem[..depth])
    ensures r.Node? && Valid(r, stem[..depth])
    decreases STEM_SIZE - depth, 0
  {
    var i := stem[depth];
    assert stem[..depth + 1] == stem[..depth] + [i];
    Node(t.children[i := InsertChild(t.children[i], depth + 1, stem, vs)])
  }

  /** The new occupant of a child slot at `depth`. */
  function InsertChild(c: Tree, depth: nat, stem: Stem, vs: Values): (r: Tree)
    requires depth <= STEM_SIZE && Valid(c, stem[..depth])
    ensures !r.Empty? && Valid(r, stem[..depth])
    decreases STEM_SIZE - depth, 1
  {
    match c
    case Empty => Leaf(stem, vs)
    case Leaf(s, old_) =>
      if s == stem then Leaf(stem, Merge(old_, vs))
      else
        assert depth < STEM_SIZE;
        BranchIsValid(c, stem[..depth]);
        Insert(Branch(c, depth), depth, stem, vs)
    case Node(_) => Insert(c, depth, stem, vs)
  }

  function Written(before: Lookup, vs: Values): Lookup {
    match before
    case Absent => Found(vs)
    case Found(old_) => Found(Merge(old_, vs))
  }

  /** Insertion changes the entry of its own stem and no other. */
  lemma {:induction false} FindAfterInsert(c: Tree, depth: nat, stem: Stem, vs: Values, s: Stem)
    requires depth <= STEM_SIZE && Valid(c, stem[..depth])
    ensures Find(InsertChild(c, depth, stem, vs), depth, s)
         == if s == stem then Written(Find(c, depth, stem), vs) else Find(c, depth, s)
    decreases STEM_SIZE - depth
  {
    match c
    case Empty =>
    case Leaf(s0, old_) =>
      if s0 != stem {
        var b := Branch(c, depth);
        BranchIsValid(c, stem[..depth]);
        assert Find(b, depth, s) == Find(c, depth, s);
        FindInNodeAfterInsert(b, depth, stem, vs, s);
        assert Find(b, depth, stem) == Absent;
      }
    case Node(_) => FindInNodeAfterInsert(c, depth, stem, vs, s);
  }

  lemma {:induction false} FindInNodeAfterInsert(t: Tree, depth: nat, stem: Stem, vs: Values, s: Stem)
    requires depth < STEM_SIZE && t.Node? && Valid(t, stem[..depth])
    ensures Find(Insert(t, depth, stem, vs), depth, s)
         == if s == stem then Written(Find(t, depth, stem), vs) else Find(t, depth, s)
    decreases STEM_SIZE - depth, 0
  {
    var i := stem[depth];
    assert stem[..depth + 1] == stem[..depth] + [i];
    if s[depth] == i {
      FindAfterInsert(t.children[i], depth + 1, stem, vs, s);
    }
  }

  // ----- Canonical shape -------------------------------------------------

  ghost predicate TwoStems(t: Tree, depth: nat, s1: Stem, s2: Stem) {
    s1 != s2 && Find(t, depth, s1).Found? && Find(t, depth, s2).Found?
  }

  /** Every internal node other than the root has two stems below it. */
  ghost predicate Canonical(t: Tree, depth: nat) {
    t.Node? ==>
      && (depth > 0 ==> exists s1, s2 :: TwoStems(t, depth, s1, s2))
      && forall i :: 0 <= i < |t.children| ==> Canonical(t.children[i], depth + 1)
  }

  lemma {:induction false} InsertChildCanonical(c: Tree, depth: nat, stem: Stem, vs: Values)
    requires 0 < depth <= STEM_SIZE && Valid(c, stem[..depth]) && Canonical(c, depth)
    ensures Canonical(InsertChild(c, depth, stem, vs), depth)
    decreases STEM_SIZE - depth, 1
  {
    match c
    case Empty =>
    case Leaf(s, old_) =>
      if s != stem {
        var b := Branch(c, depth);
        BranchIsValid(c, stem[..depth]);
        var r := Insert(b, depth, stem, vs);
        InsertBelow(b, depth, stem, vs);
        FindAfterInsert(c, depth, stem, vs, s);
        FindAfterInsert(c, depth, stem, vs, stem);
        assert TwoStems(r, depth, s, stem);
      }
    case Node(_) =>
      var s1, s2 :| TwoStems(c, depth, s1, s2);
      InsertBelow(c, depth, stem, vs);
      FindAfterInsert(c, depth, stem, vs, s1);
      FindAfterInsert(c, depth, stem, vs, s2);
      assert TwoStems(Insert(c, depth, stem, vs), depth, s1, s2);
  }

  /** The children of an internal node stay canonical. */
  lemma {:induction false} InsertBelow(t: Tree, depth: nat, stem: Stem, vs: Values)
    requires depth < STEM_SIZE && t.Node? && Valid(t, stem[..depth])
    requires forall i :: 0 <= i < NODE_WIDTH ==> Canonical(t.children[i], depth + 1)
    ensures forall i :: 0 <= i < NODE_WIDTH ==> Canonical(Insert(t, depth, stem, vs).children[i], depth + 1)
    decreases STEM_SIZE - depth, 0
  {
    var i := stem[depth];
    assert stem[..depth + 1] == stem[..depth] + [i];
    InsertChildCanonical(t.children[i], depth + 1, stem, vs);
  }

  ghost predicate SameEntries(t: Tree, u: Tree, depth: nat) {
    forall s: Stem :: Find(t, depth, s) == Find(u, depth, s)
  }

  /** Stems not extending the path of a subtree are not in it. */
  lemma {:induction false} FindOffPath(t: Tree, path: seq<byte>, s: Stem)
    requires |path| <= STEM_SIZE && Valid(t, path) && !Extends(s, path)
    ensures Find(t, |path|, s) == Absent
    decreases t
  {
    match t
    case Empty =>
    case Leaf(_, _) =>
    case Node(children) =>
      var i := s[|path|];
      assert s[..|path| + 1][..|path|] == s[..|path|];
      FindOffPath(children[i], path + [i], s);
  }

  lemma ChildEntriesAgree(t: Tree, u: Tree, path: seq<byte>, i: byte)
    requires t.Node? && u.Node? && Valid(t, path) && Valid(u, path)
    requires SameEntries(t, u, |path|)
    ensures SameEntries(t.children[i], u.children[i], |path| + 1)
  {
    var d := |path| + 1;
    forall s: Stem ensures Find(t.children[i], d, s) == Find(u.children[i], d, s) {
      ChildEntryAgrees(t, u, path, i, s);
    }
  }

  lemma ChildEntryAgrees(t: Tree, u: Tree, path: seq<byte>, i: byte, s: Stem)
    requires t.Node? && u.Node? && Valid(t, path) && Valid(u, path)
    requires Find(t, |path|, s) == Find(u, |path|, s)
    ensures Find(t.children[i], |path| + 1, s) == Find(u.children[i], |path| + 1, s)
  {
    if s[|path|] != i {
      assert s[..|path| + 1][|path|] == s[|path|];
      FindOffPath(t.children[i], path + [i], s);
      FindOffPath(u.children[i], path + [i], s);
    }
  }

  /** A valid canonical subtree is determined by its entries. */
  lemma {:induction false} ShapeIsDetermined(t: Tree, u: Tree, path: seq<byte>)
    requires |path| <= STEM_SIZE && Valid(t, path) && Valid(u, path)
    requires Canonical(t, |path|) && Canonical(u, |path|)
    requires path == [] ==> t.Node? && u.Node?
    requires SameEntries(t, u, |path|)
    ensures t == u
    decreases t
  {
    var d := |path|;
    if t.Node? && u.Node? {
      forall i | 0 <= i < NODE_WIDTH ensures t.children[i] == u.children[i] {
        ChildEntriesAgree(t, u, path, i);
        ShapeIsDetermined(t.children[i], u.children[i], path + [i]);
      }
      assert t.children == u.children;
    } else {
      assert t.Leaf? ==> Find(t, d, t.stem) == Find(u, d, t.stem);
      assert u.Leaf? ==> Find(t, d, u.stem) == Find(u, d, u.stem);
    }
  }

  // ----- Deletion --------------------------------------------------------

  predicate AllEmpty(children: seq<Tree>) {
    forall i :: 0 <= i < |children| ==> children[i].Empty?
  }

  predicate NoValues(vs: Values) {
    forall i :: 0 <= i < NODE_WIDTH ==> vs[i].Len() == 0
  }

  /** Deleting one key: the remaining subtree, and whether the parent should drop it. */
  function Delete(t: Tree, depth: nat, key: Key): (r: (Tree, bool))
    ensures t.Node? ==> r.0.Node? && |r.0.children| == |t.children|
    decreases t
  {
    match t
    case Empty => (t, false)
    case Leaf(stem, vs) =>
      if stem != KeyToStem(key) then (t, false)
      else
        var rest := vs[Suffix(key) := Nil];
        (Leaf(stem, rest), NoValues(rest))
    case Node(children) =>
      if depth < STEM_SIZE && |children| == NODE_WIDTH then
        var i := key[depth];
        var (c, gone) := Delete(children[i], depth + 1, key);
        var children' := children[i := if gone then Empty else c];
        (Node(children'), gone && AllEmpty(children'))
      else (t, false)
  }

  /** What is left in the slot. */
  function DeleteChild(t: Tree, depth: nat, key: Key): Tree {
    var (c, gone) := Delete(t, depth, key);
    if gone then Empty else c
  }

  lemma {:induction false} DeleteValid(t: Tree, path: seq<byte>, key: Key)
    requires |path| <= STEM_SIZE && Valid(t, path)
    ensures Valid(Delete(t, |path|, key).0, path) && Valid(DeleteChild(t, |path|, key), path)
    decreases t
  {
    if t.Node? {
      var i := key[|path|];
      DeleteValid(t.children[i], path + [i], key);
    }
  }

  function Erased(before: Lookup, key: Key): Lookup {
    match before
    case Absent => Absent
    case Found(vs) =>
      var rest := vs[Suffix(key) := Nil];
      if NoValues(rest) then Absent else Found(rest)
  }

  /** Deletion changes the entry of the key's stem and no other. */
  lemma {:induction false} FindAfterDelete(t: Tree, path: seq<byte>, key: Key, s: Stem)
    requires |path| <= STEM_SIZE && Valid(t, path)
    ensures Find(DeleteChild(t, |path|, key), |path|, s)
         == if s == KeyToStem(key) then Erased(Find(t, |path|, s), key) else Find(t, |path|, s)
    ensures t.Node? ==> Find(Delete(t, |path|, key).0, |path|, s) == Find(DeleteChild(t, |path|, key), |path|, s)
    decreases t
  {
    if t.Node? {
      var i := key[|path|];
      FindAfterDelete(t.children[i], path + [i], key, s);
      var (t', gone) := Delete(t, |path|, key);
      assert gone ==> t'.children[s[|path|]] == Empty;
    }
  }

  /** No internal node other than the root is left without a child. */
  ghost predicate Populated(t: Tree, depth: nat) {
    t.Node? ==>
      && (depth > 0 ==> !AllEmpty(t.children))
      && forall i :: 0 <= i < |t.children| ==> Populated(t.children[i], depth + 1)
  }

  lemma {:induction false} CanonicalIsPopulated(t: Tree, path: seq<byte>)
    requires Valid(t, path) && Canonical(t, |path|)
    ensures Populated(t, |path|)
    decreases t
  {
    if t.Node? {
      if |path| > 0 {
        var s1, s2 :| TwoStems(t, |path|, s1, s2);
        var c := t.children[s1[|path|]];
        assert Find(c, |path| + 1, s1).Found?;
        assert !c.Empty?;
      }
      forall i | 0 <= i < NODE_WIDTH ensures Populated(t.children[i], |path| + 1) {
        CanonicalIsPopulated(t.children[i], path + [i]);
      }
    }
  }

  lemma {:induction false} DeletePopulated(t: Tree, depth: nat, key: Key)
    requires Populated(t, depth)
    ensures depth > 0 ==> Populated(DeleteChild(t, depth, key), depth)
    ensures depth == 0 ==> Populated(Delete(t, depth, key).0, depth)
    decreases t
  {
    if t.Node? && depth < STEM_SIZE && |t.children| == NODE_WIDTH {
      var i := key[depth];
      var c := DeleteChild(t.children[i], depth + 1, key);
      DeletePopulated(t.children[i], depth + 1, key);
      var children' := t.children[i := c];
      assert children'[i] == c;
      assert t.children[i].Empty? ==> children' == t.children;
    }
  }
}
