/** When a deletion gives the tree back that was never inserted into, and when a fork outlives it. */
module Forks {
  import opened VerkleTypes
  import opened Trie
  import opened TrieRuns

  // ----- One deletion ----------------------------------------------------

  ghost predicate HasTwo(t: Tree, depth: nat) {
    exists s1: Stem, s2: Stem :: TwoStems(t, depth, s1, s2)
  }

  ghost predicate TwoOthers(t: Tree, depth: nat, stem: Stem) {
    exists s1: Stem, s2: Stem :: TwoStems(t, depth, s1, s2) && s1 != stem && s2 != stem
  }

  /** Every non-root internal node on the way of `stem` has two other stems below it. */
  ghost predicate Spare(t: Tree, depth: nat, stem: Stem) {
    t.Node? && depth < STEM_SIZE && |t.children| == NODE_WIDTH ==>
      (depth > 0 ==> TwoOthers(t, depth, stem)) && Spare(t.children[stem[depth]], depth + 1, stem)
  }

  /** The deletion of `key` empties its leaf. */
  predicate EmptiesLeaf(found: Lookup, key: Key) {
    found.Found? && NoValues(found.values[Suffix(key) := Nil])
  }

  /** A deletion that leaves its leaf in place keeps two stems below every internal node. */
  lemma {:induction false} KeptLeafKeepsShape(t: Tree, path: seq<byte>, key: Key)
    requires |path| <= STEM_SIZE && Valid(t, path) && Canonical(t, |path|)
    requires !EmptiesLeaf(Find(t, |path|, KeyToStem(key)), key)
    ensures Canonical(DeleteChild(t, |path|, key), |path|)
    decreases t
  {
    if t.Node? {
      var d, i := |path|, key[|path|];
      var c, r := DeleteChild(t.children[i], d + 1, key), Delete(t, d, key);
      KeptLeafKeepsShape(t.children[i], path + [i], key);
      NodeAfterDelete(t, d, key);
      if d > 0 {
        var s1: Stem, s2: Stem :| TwoStems(t, d, s1, s2);
        FindAfterDelete(t, path, key, s1);
        FindAfterDelete(t, path, key, s2);
        assert TwoStems(r.0, d, s1, s2);
      }
      hide Delete, DeleteChild, Find, EmptiesLeaf, NoValues;
      ChildChanged(t, r.0, d, i, c);
    }
  }

  /** A deletion that drops its leaf keeps two stems below every internal node exactly when there are two
      others below each one on the way. */
  lemma {:induction false} DroppedLeafKeepsShape(t: Tree, path: seq<byte>, key: Key)
    requires |path| <= STEM_SIZE && Valid(t, path) && Canonical(t, |path|)
    requires EmptiesLeaf(Find(t, |path|, KeyToStem(key)), key)
    ensures Canonical(DeleteChild(t, |path|, key), |path|) <==> Spare(t, |path|, KeyToStem(key))
    ensures t.Node? ==> (Canonical(Delete(t, |path|, key).0, |path|) <==> Spare(t, |path|, KeyToStem(key)))
    decreases t
  {
    if t.Node? {
      var d, i, stem := |path|, key[|path|], KeyToStem(key);
      var c, r := DeleteChild(t.children[i], d + 1, key), Delete(t, d, key);
      DroppedLeafKeepsShape(t.children[i], path + [i], key);
      NodeAfterDelete(t, d, key);
      OthersStay(t, path, key);
      assert Spare(t, d, stem) <==> (d > 0 ==> TwoOthers(t, d, stem)) && Canonical(c, d + 1);
      hide Delete, DeleteChild, Find, Spare, EmptiesLeaf, TwoOthers, NoValues;
      ChildChanged(t, r.0, d, i, c);
      if r.1 {
        assert r.0.children[i] == Empty;
        if d > 0 {
          var s1: Stem, s2: Stem :| TwoStems(t, d, s1, s2);
          NothingFound(r.0, d, if s1 == stem then s2 else s1);
          assert false;
        }
      }
    }
  }

  lemma ChildChanged(t: Tree, r: Tree, depth: nat, i: byte, c: Tree)
    requires t.Node? && |t.children| == NODE_WIDTH && Canonical(t, depth) && r == Node(t.children[i := c])
    ensures Canonical(r, depth) <==> (depth > 0 ==> HasTwo(r, depth)) && Canonical(c, depth + 1)
  {
    assert r.children[i] == c;
    hide TwoStems;
  }

  lemma NothingFound(r: Tree, depth: nat, s: Stem)
    requires r.Node? && AllEmpty(r.children)
    ensures Find(r, depth, s) == Absent
  {
  }

  lemma EntryAfterDelete(t: Tree, path: seq<byte>, key: Key, s: Stem)
    requires |path| <= STEM_SIZE && Valid(t, path) && t.Node? && EmptiesLeaf(Find(t, |path|, KeyToStem(key)), key)
    ensures Find(Delete(t, |path|, key).0, |path|, s) == if s == KeyToStem(key) then Absent else Find(t, |path|, s)
  {
    FindAfterDelete(t, path, key, s);
  }

  /** Two stems are left exactly when there were two others. */
  lemma OthersStay(t: Tree, path: seq<byte>, key: Key)
    requires |path| <= STEM_SIZE && Valid(t, path) && t.Node? && EmptiesLeaf(Find(t, |path|, KeyToStem(key)), key)
    ensures var d, r := |path|, Delete(t, |path|, key).0;
            && (TwoOthers(t, d, KeyToStem(key)) <==> HasTwo(r, d))
            && forall s: Stem :: s != KeyToStem(key) && Find(t, d, s).Found? ==> Find(r, d, s).Found?
  {
    var d, r, stem := |path|, Delete(t, |path|, key).0, KeyToStem(key);
    forall s: Stem ensures Find(r, d, s) == if s == stem then Absent else Find(t, d, s) {
      EntryAfterDelete(t, path, key, s);
    }
    hide Find, Delete, EmptiesLeaf, Valid, TwoOthers, HasTwo;
    TwoLeft(t, r, d, stem);
  }

  lemma TwoLeft(t: Tree, r: Tree, depth: nat, stem: Stem)
    requires forall s: Stem :: Find(r, depth, s) == if s == stem then Absent else Find(t, depth, s)
    ensures TwoOthers(t, depth, stem) <==> HasTwo(r, depth)
  {
    hide Find;
    if TwoOthers(t, depth, stem) {
      var s1: Stem, s2: Stem :| TwoStems(t, depth, s1, s2) && s1 != stem && s2 != stem;
      assert TwoStems(r, depth, s1, s2);
    }
    if HasTwo(r, depth) {
      var s1: Stem, s2: Stem :| TwoStems(r, depth, s1, s2);
      assert TwoStems(t, depth, s1, s2) && s1 != stem && s2 != stem;
    }
  }

  lemma NodeAfterDelete(t: Tree, depth: nat, key: Key)
    requires t.Node? && depth < STEM_SIZE && |t.children| == NODE_WIDTH
    ensures var c, r := DeleteChild(t.children[key[depth]], depth + 1, key), Delete(t, depth, key);
            && r.0 == Node(t.children[key[depth] := c]) && (r.1 ==> AllEmpty(r.0.children))
            && DeleteChild(t, depth, key) == if r.1 then Empty else r.0
  {
  }

  // ----- What the stored keys say about it ---------------------------------

  predicate Shares(a: Stem, b: Stem, n: nat)
    requires n <= STEM_SIZE
  {
    a[..n] == b[..n]
  }

  /** Whatever other stem shares the first `n` bytes with `stem`, a second one does. */
  ghost predicate SharedByTwo(t: Tree, depth: nat, stem: Stem, n: nat)
    requires n <= STEM_SIZE
  {
    forall o: Stem :: o != stem && Find(t, depth, o).Found? && Shares(o, stem, n) ==> SecondShares(t, depth, stem, n, o)
  }

  ghost predicate SecondShares(t: Tree, depth: nat, stem: Stem, n: nat, o: Stem)
    requires n <= STEM_SIZE
  {
    exists p: Stem :: p != stem && p != o && Find(t, depth, p).Found? && Shares(p, stem, n)
  }

  /** No other stem is alone in sharing a beginning with `stem`: a condition on the stored keys only. */
  ghost predicate NoneAlone(t: Tree, stem: Stem) {
    forall n: nat :: 1 <= n < STEM_SIZE ==> SharedByTwo(t, 0, stem, n)
  }

  ghost predicate NoneAloneFrom(t: Tree, depth: nat, stem: Stem) {
    forall n: nat :: depth <= n < STEM_SIZE && 1 <= n ==> SharedByTwo(t, depth, stem, n)
  }

  /** Two others below every node on the way, said by the stems below it. */
  lemma {:induction false} SpareIsNoneAlone(t: Tree, path: seq<byte>, stem: Stem)
    requires |path| <= STEM_SIZE && Valid(t, path) && Canonical(t, |path|) && Find(t, |path|, stem).Found?
    ensures Spare(t, |path|, stem) <==> NoneAloneFrom(t, |path|, stem)
    decreases t
  {
    var d := |path|;
    FoundOnPath(t, path, stem);
    if t.Node? {
      assert stem[..d + 1] == path + [stem[d]];
      SpareIsNoneAlone(t.children[stem[d]], path + [stem[d]], stem);
      if d > 0 {
        SharedHere(t, path, stem);
      }
      NoneAloneStep(t, path, stem);
    } else {
      AloneInLeaf(t, d, stem);
    }
  }

  lemma NoneAloneStep(t: Tree, path: seq<byte>, stem: Stem)
    requires |path| < STEM_SIZE && Valid(t, path) && t.Node?
    ensures NoneAloneFrom(t, |path|, stem)
       <==> (|path| > 0 ==> SharedByTwo(t, |path|, stem, |path|)) && NoneAloneFrom(t.children[stem[|path|]], |path| + 1, stem)
  {
    var d, e, c := |path|, |path| + 1, t.children[stem[|path|]];
    if NoneAloneFrom(t, d, stem) {
      forall n: nat | e <= n < STEM_SIZE ensures SharedByTwo(c, e, stem, n) {
        SharedBelow(t, path, stem, n);
      }
    }
    if (d > 0 ==> SharedByTwo(t, d, stem, d)) && NoneAloneFrom(c, e, stem) {
      forall n: nat | d <= n < STEM_SIZE && 1 <= n ensures SharedByTwo(t, d, stem, n) {
        if n > d {
          SharedBelow(t, path, stem, n);
        }
      }
    }
  }

  lemma AloneInLeaf(t: Tree, depth: nat, stem: Stem)
    requires !t.Node? && Find(t, depth, stem).Found?
    ensures NoneAloneFrom(t, depth, stem)
  {
  }

  lemma FoundOnPath(t: Tree, path: seq<byte>, s: Stem)
    requires |path| <= STEM_SIZE && Valid(t, path) && Find(t, |path|, s).Found?
    ensures Extends(s, path)
  {
    if !Extends(s, path) {
      FindOffPath(t, path, s);
    }
  }

  /** At the node's own depth: all its stems share its path. */
  lemma SharedHere(t: Tree, path: seq<byte>, stem: Stem)
    requires 0 < |path| <= STEM_SIZE && Valid(t, path) && t.Node? && Canonical(t, |path|) && Find(t, |path|, stem).Found?
    ensures SharedByTwo(t, |path|, stem, |path|) <==> TwoOthers(t, |path|, stem)
  {
    var d := |path|;
    forall s: Stem | Find(t, d, s).Found? ensures Shares(s, stem, d) {
      FoundOnPath(t, path, s);
      FoundOnPath(t, path, stem);
    }
    var s1: Stem, s2: Stem :| TwoStems(t, d, s1, s2);
    hide SharedByTwo, TwoOthers, Find;
    if TwoOthers(t, d, stem) {
      OthersShare(t, d, stem);
    }
    if SharedByTwo(t, d, stem, d) {
      SharersAreTwo(t, d, stem, if s1 == stem then s2 else s1);
    }
  }

  lemma OthersShare(t: Tree, depth: nat, stem: Stem)
    requires depth <= STEM_SIZE && TwoOthers(t, depth, stem)
    requires forall s: Stem :: Find(t, depth, s).Found? ==> Shares(s, stem, depth)
    ensures SharedByTwo(t, depth, stem, depth)
  {
    hide Find, Shares;
    var a: Stem, b: Stem :| TwoStems(t, depth, a, b) && a != stem && b != stem;
    forall o: Stem | o != stem && Find(t, depth, o).Found? ensures SecondShares(t, depth, stem, depth, o) {
      var p := if o == a then b else a;
      assert Shares(p, stem, depth);
    }
  }

  lemma SharersAreTwo(t: Tree, depth: nat, stem: Stem, other: Stem)
    requires depth <= STEM_SIZE && other != stem && Find(t, depth, other).Found? && Shares(other, stem, depth)
    requires SharedByTwo(t, depth, stem, depth)
    ensures TwoOthers(t, depth, stem)
  {
    hide Find, Shares;
    assert SecondShares(t, depth, stem, depth, other);
    var p: Stem :| p != stem && p != other && Find(t, depth, p).Found? && Shares(p, stem, depth);
    assert TwoStems(t, depth, other, p);
  }

  /** Further down: the stems that share more than the path are those below one child. */
  lemma SharedBelow(t: Tree, path: seq<byte>, stem: Stem, n: nat)
    requires |path| < n < STEM_SIZE && Valid(t, path) && t.Node?
    ensures SharedByTwo(t, |path|, stem, n) <==> SharedByTwo(t.children[stem[|path|]], |path| + 1, stem, n)
  {
    var d, c := |path|, t.children[stem[|path|]];
    forall s: Stem | Shares(s, stem, n) ensures Find(t, d, s) == Find(c, d + 1, s) {
      assert s[..n][d] == stem[..n][d];
    }
    hide Find, Valid, Shares;
    if SharedByTwo(t, d, stem, n) {
      forall o: Stem | o != stem && Find(c, d + 1, o).Found? && Shares(o, stem, n) ensures SecondShares(c, d + 1, stem, n, o) {
        assert SecondShares(t, d, stem, n, o);
      }
    }
    if SharedByTwo(c, d + 1, stem, n) {
      forall o: Stem | o != stem && Find(t, d, o).Found? && Shares(o, stem, n) ensures SecondShares(t, d, stem, n, o) {
        assert SecondShares(c, d + 1, stem, n, o);
      }
    }
  }

  /** A deletion keeps a canonical tree canonical exactly when its leaf stays, or no other stem is alone in
      sharing a beginning with the dropped one. */
  lemma DeleteKeepsShape(t: Tree, key: Key)
    requires t.Node? && Valid(t, []) && Canonical(t, 0)
    ensures Canonical(Delete(t, 0, key).0, 0)
       <==> (EmptiesLeaf(Find(t, 0, KeyToStem(key)), key) ==> NoneAlone(t, KeyToStem(key)))
  {
    if EmptiesLeaf(Find(t, 0, KeyToStem(key)), key) {
      DroppedLeafKeepsShape(t, [], key);
      SpareIsNoneAlone(t, [], KeyToStem(key));
    } else {
      KeptLeafKeepsShape(t, [], key);
      RootStays(t, key);
    }
  }

  lemma RootStays(t: Tree, key: Key)
    requires t.Node? && Valid(t, []) && !EmptiesLeaf(Find(t, 0, KeyToStem(key)), key)
    ensures !Delete(t, 0, key).1
  {
    hide Valid;
    LeafStays(t, 0, key);
  }

  lemma {:induction false} LeafStays(t: Tree, depth: nat, key: Key)
    requires !EmptiesLeaf(Find(t, depth, KeyToStem(key)), key)
    ensures !Delete(t, depth, key).1
    decreases t
  {
    if t.Node? && depth < STEM_SIZE && |t.children| == NODE_WIDTH {
      LeafStays(t.children[key[depth]], depth + 1, key);
    }
  }

  // ----- Runs ------------------------------------------------------------

  /** Deletions bring back the tree of a run that wrote just the remaining keys exactly when they keep the
      shape canonical. */
  lemma DeletionsRestore(ws: seq<Write>, ks: seq<Key>, us: seq<Write>)
    requires NonEmpty(ws) && NonEmpty(us)
    requires forall key: Key :: Latest(us, key) == if key in ks then Nil else Latest(ws, key)
    ensures Deletes(Run(ws), ks) == Run(us) <==> Canonical(Deletes(Run(ws), ks), 0)
  {
    var r, u := Deletes(Run(ws), ks), Run(us);
    InsertsThenDeletes(ws, ks);
    RunIsCanonical(us);
    RunIsSolid(us);
    forall key: Key ensures Get(r, key) == Get(u, key) {
      GetAfterRun(us, key);
    }
    if Canonical(r, 0) {
      forall s: Stem ensures Find(r, 0, s) == Find(u, 0, s) {
        SolidFound(r, u, s);
        SameGetSameFind(r, u, s);
      }
      ShapeIsDetermined(r, u, []);
    }
  }

  /** In trees without empty leaves the same values mean the same leaves. */
  lemma SolidFound(t: Tree, u: Tree, s: Stem)
    requires Solid(t) && Solid(u) && SameGet(t, u)
    ensures Find(t, 0, s).Found? <==> Find(u, 0, s).Found?
  {
    if Find(t, 0, s).Found? {
      SolidValue(t, u, s);
    }
    if Find(u, 0, s).Found? {
      SolidValue(u, t, s);
    }
  }

  lemma SolidValue(t: Tree, u: Tree, s: Stem)
    requires Solid(t) && (SameGet(t, u) || SameGet(u, t)) && Find(t, 0, s).Found?
    ensures Find(u, 0, s).Found?
  {
    var vs := Find(t, 0, s).values;
    var b :| 0 <= b < NODE_WIDTH && vs[b].Len() > 0;
    var key := MakeKey(s, b);
    KeyParts(key);
    assert Get(t, key) == vs[b];
    assert SameGet(t, u) ==> Get(t, key) == Get(u, key);
    assert SameGet(u, t) ==> Get(u, key) == Get(t, key);
  }

  /** The run without its writes to one key. */
  function Without(ws: seq<Write>, key: Key): (us: seq<Write>)
    ensures |us| <= |ws|
  {
    if ws == [] then []
    else
      var w := ws[|ws| - 1];
      Without(ws[..|ws| - 1], key) + if w.key == key then [] else [w]
  }

  lemma LatestNext(us: seq<Write>, w: Write, k: Key)
    ensures Latest(us + [w], k) == if w.key == k && w.value.Len() > 0 then w.value else Latest(us, k)
  {
    assert (us + [w])[..|us|] == us;
  }

  lemma WithoutNext(us: seq<Write>, w: Write, key: Key)
    ensures Without(us + [w], key) == if w.key == key then Without(us, key) else Without(us, key) + [w]
  {
    assert (us + [w])[..|us|] == us;
  }

  lemma {:induction false} WithoutWrites(ws: seq<Write>, key: Key, k: Key)
    ensures Latest(Without(ws, key), k) == if k == key then Nil else Latest(ws, k)
  {
    if ws != [] {
      var w, init := ws[|ws| - 1], ws[..|ws| - 1];
      assert ws == init + [w];
      WithoutWrites(init, key, k);
      hide *;
      LatestNext(init, w, k);
      LatestNext(Without(init, key), w, k);
      WithoutNext(init, w, key);
    }
  }

  lemma {:induction false} WithoutNonEmpty(ws: seq<Write>, key: Key)
    requires NonEmpty(ws)
    ensures NonEmpty(Without(ws, key))
  {
    if ws != [] {
      WithoutNonEmpty(ws[..|ws| - 1], key);
    }
  }

  /** The last value of its stem that a run wrote. */
  ghost predicate OnlyOfStem(ws: seq<Write>, key: Key) {
    forall k: Key :: KeyToStem(k) == KeyToStem(key) && k != key ==> Latest(ws, k) == Nil
  }

  /** Deleting a key after a run gives the tree of the run that never wrote it, exactly when another value of
      its stem stays or no other stem is alone in sharing a beginning with it. */
  lemma DeleteUndoesWrites(ws: seq<Write>, key: Key)
    requires NonEmpty(ws) && Latest(ws, key) != Nil
    ensures Deletes(Run(ws), [key]) == Run(Without(ws, key))
       <==> (OnlyOfStem(ws, key) ==> NoneAlone(Run(ws), KeyToStem(key)))
  {
    var us, t := Without(ws, key), Run(ws);
    forall k: Key ensures Latest(us, k) == if k in [key] then Nil else Latest(ws, k) {
      WithoutWrites(ws, key, k);
    }
    WithoutNonEmpty(ws, key);
    DeletionsRestore(ws, [key], us);
    RunIsCanonical(ws);
    DeleteKeepsShape(t, key);
    OnlyMeansEmpties(ws, key);
    assert [key][..0] == [];
    hide Run, Delete, Canonical, NoneAlone, OnlyOfStem, EmptiesLeaf, Without, NonEmpty, Latest, Find;
    assert Deletes(t, []) == t;
  }

  lemma OnlyMeansEmpties(ws: seq<Write>, key: Key)
    requires NonEmpty(ws) && Latest(ws, key) != Nil
    ensures EmptiesLeaf(Find(Run(ws), 0, KeyToStem(key)), key) <==> OnlyOfStem(ws, key)
  {
    var stem := KeyToStem(key);
    var found := Find(Run(ws), 0, stem);
    RunDescribes(ws, stem);
    if !Touched(ws, stem) {
      UntouchedIsNil(ws, key);
    }
    hide Run, Find;
    var rest := found.values[Suffix(key) := Nil];
    forall b: byte ensures rest[b] == if b == Suffix(key) then Nil else Latest(ws, MakeKey(stem, b)) {
    }
    KeyParts(key);
    if OnlyOfStem(ws, key) {
      forall b: byte ensures rest[b].Len() == 0 {
        KeyParts(MakeKey(stem, b));
      }
    } else {
      var k: Key :| KeyToStem(k) == stem && k != key && Latest(ws, k) != Nil;
      KeyParts(k);
      LatestIsSolid(ws, k);
      assert rest[Suffix(k)].Len() > 0;
    }
  }

  /** Two keys: the second one's deletion brings the tree of the first back exactly when they differ and
      share their stem or not even their first byte. A fork between them outlives the deletion. */
  lemma ForkOutlivesDelete(a: Write, b: Write)
    requires a.value.Len() > 0 && b.value.Len() > 0
    ensures Deletes(Run([a, b]), [b.key]) == Run([a])
       <==> a.key != b.key && (KeyToStem(a.key) == KeyToStem(b.key) || a.key[0] != b.key[0])
  {
    var ws := [a, b];
    assert ws[..1] == [a] && [a][..0] == [];
    assert Latest(ws, b.key) == b.value;
    DeleteUndoesWrites(ws, b.key);
    assert Without([a], b.key) == if a.key == b.key then [] else [a];
    assert Without(ws, b.key) == Without([a], b.key);
    TwoKeysAlone(a, b);
    OnlyTwo(a, b);
    if a.key == b.key {
      InsertsThenDeletes(ws, [b.key]);
      GetAfterRun([a], a.key);
      assert Get(Deletes(Run(ws), [b.key]), a.key) == Nil;
    }
  }

  lemma OnlyTwo(a: Write, b: Write)
    requires a.value.Len() > 0 && b.value.Len() > 0
    ensures OnlyOfStem([a, b], b.key) <==> a.key == b.key || KeyToStem(a.key) != KeyToStem(b.key)
  {
    var ws := [a, b];
    assert ws[..1] == [a] && [a][..0] == [];
    forall k: Key ensures Latest(ws, k) == if b.key == k then b.value else if a.key == k then a.value else Nil {
      assert Latest([a], k) == if a.key == k then a.value else Latest([], k);
    }
    hide Latest;
    assert Latest(ws, a.key) != Nil;
  }

  lemma SharesFirst(a: Stem, b: Stem, n: nat)
    requires 1 <= n <= STEM_SIZE
    ensures Shares(a, b, n) ==> a[0] == b[0]
  {
    assert a[..n][0] == a[0] && b[..n][0] == b[0];
  }

  lemma TwoKeysAlone(a: Write, b: Write)
    requires a.value.Len() > 0 && b.value.Len() > 0
    ensures NoneAlone(Run([a, b]), KeyToStem(b.key)) <==> KeyToStem(a.key) == KeyToStem(b.key) || a.key[0] != b.key[0]
  {
    var ws, t, s, o := [a, b], Run([a, b]), KeyToStem(b.key), KeyToStem(a.key);
    forall x: Stem ensures Find(t, 0, x).Found? <==> x == s || x == o {
      RunDescribes(ws, x);
      assert ws[0] == a && ws[1] == b;
    }
    hide Run, Find;
    if o == s || a.key[0] != b.key[0] {
      forall n: nat | 1 <= n < STEM_SIZE ensures SharedByTwo(t, 0, s, n) {
        SharesFirst(o, s, n);
      }
    } else {
      assert o[..1] == [o[0]] && s[..1] == [s[0]] && o[0] == a.key[0] && s[0] == b.key[0];
      assert Shares(o, s, 1) && !SecondShares(t, 0, s, 1, o);
      assert !SharedByTwo(t, 0, s, 1);
    }
  }
}
