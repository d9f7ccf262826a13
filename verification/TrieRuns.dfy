/** Whole runs of insertions and deletions from the empty trie: a finite map with a canonical shape. */
module TrieRuns {
  import opened VerkleTypes
  import opened Trie

  datatype Write = Write(key: Key, value: Value)

  /** The trie after inserting `ws` one by one. */
  function Run(ws: seq<Write>): (t: Tree)
    ensures t.Node? && Valid(t, [])
  {
    if ws == [] then New()
    else
      var w := ws[|ws| - 1];
      var before := Run(ws[..|ws| - 1]);
      assert KeyToStem(w.key)[..0] == [];
      Insert(before, 0, KeyToStem(w.key), Single(w.key, w.value))
  }

  /** The last non-empty value written at `key`; nil when there is none. */
  function Latest(ws: seq<Write>, key: Key): Value {
    if ws == [] then Nil
    else
      var w := ws[|ws| - 1];
      if w.key == key && w.value.Len() > 0 then w.value else Latest(ws[..|ws| - 1], key)
  }

  predicate Touched(ws: seq<Write>, stem: Stem) {
    exists i :: 0 <= i < |ws| && KeyToStem(ws[i].key) == stem
  }

  predicate NonEmpty(ws: seq<Write>) {
    forall i :: 0 <= i < |ws| ==> ws[i].value.Len() > 0
  }

  /** What a lookup of `stem` finds in the state described by `ws`. */
  ghost predicate Describes(found: Lookup, ws: seq<Write>, stem: Stem) {
    && (found.Found? <==> Touched(ws, stem))
    && (found.Found? ==> forall b: byte ::
          if Latest(ws, MakeKey(stem, b)) == Nil then found.values[b].Len() == 0
          else found.values[b] == Latest(ws, MakeKey(stem, b)))
    && (found.Found? && NonEmpty(ws) ==> forall b: byte :: found.values[b] == Latest(ws, MakeKey(stem, b)))
  }

  lemma KeyParts(key: Key)
    ensures MakeKey(KeyToStem(key), Suffix(key)) == key
    ensures forall s: Stem, b: byte :: KeyToStem(MakeKey(s, b)) == s && Suffix(MakeKey(s, b)) == b
  {
  }

  lemma LatestIsSolid(ws: seq<Write>, key: Key)
    ensures Latest(ws, key) != Nil ==> Latest(ws, key).Len() > 0
  {
  }

  lemma {:induction false} RunDescribes(ws: seq<Write>, stem: Stem)
    ensures Describes(Find(Run(ws), 0, stem), ws, stem)
  {
    if ws == [] {
    } else {
      var w, init := ws[|ws| - 1], ws[..|ws| - 1];
      assert ws == init + [w];
      RunDescribes(init, stem);
      var before := Run(init);
      assert KeyToStem(w.key)[..0] == [];
      FindInNodeAfterInsert(before, 0, KeyToStem(w.key), Single(w.key, w.value), stem);
      hide Run, Find;
      assert Touched(ws, stem) <==> Touched(init, stem) || KeyToStem(w.key) == stem by {
        assert KeyToStem(w.key) == stem ==> KeyToStem(ws[|ws| - 1].key) == stem;
        if Touched(init, stem) {
          var i :| 0 <= i < |init| && KeyToStem(init[i].key) == stem;
          assert KeyToStem(ws[i].key) == stem;
        }
      }
      if KeyToStem(w.key) == stem {
        WrittenDescribes(Find(before, 0, stem), init, w);
      } else {
        OtherStemDescribes(Find(before, 0, stem), init, w, stem);
      }
    }
  }

  lemma OtherStemDescribes(found: Lookup, init: seq<Write>, w: Write, stem: Stem)
    requires Describes(found, init, stem) && KeyToStem(w.key) != stem
    requires Touched(init + [w], stem) <==> Touched(init, stem)
    ensures Describes(found, init + [w], stem)
  {
    var ws := init + [w];
    assert ws[..|ws| - 1] == init;
    forall b: byte ensures Latest(ws, MakeKey(stem, b)) == Latest(init, MakeKey(stem, b)) {
      KeyParts(MakeKey(stem, b));
    }
    assert NonEmpty(ws) ==> NonEmpty(init) by {
      assert forall i :: 0 <= i < |init| ==> ws[i] == init[i];
    }
  }

  lemma WrittenDescribes(found: Lookup, init: seq<Write>, w: Write)
    requires Describes(found, init, KeyToStem(w.key)) && Touched(init + [w], KeyToStem(w.key))
    ensures Describes(Written(found, Single(w.key, w.value)), init + [w], KeyToStem(w.key))
  {
    var ws, stem := init + [w], KeyToStem(w.key);
    var after := Written(found, Single(w.key, w.value));
    assert ws[..|ws| - 1] == init;
    KeyParts(w.key);
    assert NonEmpty(ws) ==> NonEmpty(init) && w.value.Len() > 0 by {
      assert forall i :: 0 <= i < |init| ==> ws[i] == init[i];
      assert ws[|init|] == w;
    }
    forall b: byte
      ensures if Latest(ws, MakeKey(stem, b)) == Nil then after.values[b].Len() == 0
              else after.values[b] == Latest(ws, MakeKey(stem, b))
      ensures NonEmpty(ws) ==> after.values[b] == Latest(ws, MakeKey(stem, b))
    {
      var key := MakeKey(stem, b);
      KeyParts(key);
      LatestIsSolid(init, key);
      assert key == w.key <==> b == Suffix(w.key);
      if found.Absent? {
        UntouchedIsNil(init, key);
      }
    }
  }

  lemma {:induction false} UntouchedIsNil(ws: seq<Write>, key: Key)
    requires !Touched(ws, KeyToStem(key))
    ensures Latest(ws, key) == Nil
  {
    if ws != [] {
      var init := ws[..|ws| - 1];
      assert KeyToStem(ws[|ws| - 1].key) != KeyToStem(key);
      forall i | 0 <= i < |init| ensures KeyToStem(init[i].key) != KeyToStem(key) {
        assert init[i] == ws[i];
      }
      UntouchedIsNil(init, key);
    }
  }

  /** Get after a run: the last non-empty value written, and an empty one where there is none;
      exactly the map of last writes when no empty value was written. */
  lemma GetAfterRun(ws: seq<Write>, key: Key)
    ensures if Latest(ws, key) == Nil then Get(Run(ws), key).Len() == 0 else Get(Run(ws), key) == Latest(ws, key)
    ensures NonEmpty(ws) ==> Get(Run(ws), key) == Latest(ws, key)
  {
    RunDescribes(ws, KeyToStem(key));
    KeyParts(key);
    if !Touched(ws, KeyToStem(key)) {
      UntouchedIsNil(ws, key);
    }
  }

  // ----- Canonical shape -------------------------------------------------

  lemma {:induction false} RunIsCanonical(ws: seq<Write>)
    ensures Canonical(Run(ws), 0)
  {
    if ws != [] {
      var w, before := ws[|ws| - 1], Run(ws[..|ws| - 1]);
      RunIsCanonical(ws[..|ws| - 1]);
      assert KeyToStem(w.key)[..0] == [];
      InsertBelow(before, 0, KeyToStem(w.key), Single(w.key, w.value));
    }
  }

  ghost predicate SameGet(t: Tree, u: Tree) {
    forall key: Key :: Get(t, key) == Get(u, key)
  }

  ghost predicate SameLatest(ws: seq<Write>, us: seq<Write>) {
    forall key: Key :: Latest(ws, key) == Latest(us, key)
  }

  ghost predicate SameTouched(ws: seq<Write>, us: seq<Write>) {
    forall s: Stem :: Touched(ws, s) <==> Touched(us, s)
  }

  /** The entry of a stem is read off Get and the presence of the leaf. */
  lemma SameGetSameFind(t: Tree, u: Tree, s: Stem)
    requires SameGet(t, u)
    requires Find(t, 0, s).Found? <==> Find(u, 0, s).Found?
    ensures Find(t, 0, s) == Find(u, 0, s)
  {
    hide Find;
    if Find(t, 0, s).Found? {
      var vs, us := Find(t, 0, s).values, Find(u, 0, s).values;
      forall b | 0 <= b < NODE_WIDTH ensures vs[b] == us[b] {
        KeyParts(MakeKey(s, b));
        assert Get(t, MakeKey(s, b)) == Get(u, MakeKey(s, b));
      }
      assert vs == us;
    }
  }

  /** Two runs end in the same trie exactly when they store the same values and wrote to the same stems. */
  lemma CanonicalShape(ws: seq<Write>, us: seq<Write>)
    ensures Run(ws) == Run(us) <==> SameGet(Run(ws), Run(us)) && SameTouched(ws, us)
  {
    var t, u := Run(ws), Run(us);
    forall s: Stem
      ensures Find(t, 0, s).Found? <==> Touched(ws, s)
      ensures Find(u, 0, s).Found? <==> Touched(us, s)
    {
      RunDescribes(ws, s);
      RunDescribes(us, s);
    }
    hide Run, Find, Touched;
    if t == u {
      forall s: Stem ensures Touched(ws, s) <==> Touched(us, s) {
        assert Find(t, 0, s) == Find(u, 0, s);
      }
    } else if SameGet(t, u) && SameTouched(ws, us) {
      forall s: Stem ensures Find(t, 0, s) == Find(u, 0, s) {
        SameGetSameFind(t, u, s);
      }
      RunIsCanonical(ws);
      RunIsCanonical(us);
      ShapeIsDetermined(t, u, []);
    }
  }

  /** Without empty values the stored map alone decides the trie, and so its commitment. */
  lemma MapDeterminesTrie(ws: seq<Write>, us: seq<Write>)
    requires NonEmpty(ws) && NonEmpty(us)
    ensures SameLatest(ws, us) <==> Run(ws) == Run(us)
    ensures SameLatest(ws, us) ==> Commitment(Run(ws)) == Commitment(Run(us))
  {
    SameLatestSameGet(ws, us);
    if SameLatest(ws, us) {
      forall s: Stem ensures Touched(ws, s) <==> Touched(us, s) {
        if Touched(ws, s) {
          TouchedIsStored(ws, us, s);
        }
        if Touched(us, s) {
          TouchedIsStored(us, ws, s);
        }
      }
    }
    CanonicalShape(ws, us);
  }

  lemma SameLatestSameGet(ws: seq<Write>, us: seq<Write>)
    requires NonEmpty(ws) && NonEmpty(us)
    ensures SameLatest(ws, us) <==> SameGet(Run(ws), Run(us))
  {
    var t, u := Run(ws), Run(us);
    forall key: Key ensures Get(t, key) == Latest(ws, key) && Get(u, key) == Latest(us, key) {
      GetAfterRun(ws, key);
      GetAfterRun(us, key);
    }
  }

  lemma TouchedIsStored(ws: seq<Write>, us: seq<Write>, s: Stem)
    requires NonEmpty(ws) && Touched(ws, s) && SameLatest(ws, us)
    ensures Touched(us, s)
  {
    var i :| 0 <= i < |ws| && KeyToStem(ws[i].key) == s;
    WrittenIsKept(ws, i);
    if !Touched(us, s) {
      UntouchedIsNil(us, ws[i].key);
    }
  }

  lemma {:induction false} WrittenIsKept(ws: seq<Write>, i: nat)
    requires NonEmpty(ws) && i < |ws|
    ensures Latest(ws, ws[i].key) != Nil
  {
    var init := ws[..|ws| - 1];
    if i < |init| {
      assert forall j :: 0 <= j < |init| ==> init[j] == ws[j];
      WrittenIsKept(init, i);
    }
  }

  /** With empty values the map does not decide the shape: writing nil to a new stem leaves a leaf without values. */
  lemma EmptyWriteLeavesLeaf(key: Key)
    ensures forall k: Key :: Get(Run([]), k) == Get(Run([Write(key, Nil)]), k) == Nil
    ensures Run([]) != Run([Write(key, Nil)])
  {
    var ws := [Write(key, Nil)];
    forall k: Key ensures Get(Run([]), k) == Get(Run(ws), k) == Nil {
      RunDescribes([], KeyToStem(k));
      assert KeyToStem(key)[..0] == [] && ws[..0] == [];
      FindInNodeAfterInsert(New(), 0, KeyToStem(key), Single(key, Nil), KeyToStem(k));
    }
    RunDescribes(ws, KeyToStem(key));
    RunDescribes([], KeyToStem(key));
    assert KeyToStem(ws[0].key) == KeyToStem(key);
  }

  // ----- Deletions after insertions --------------------------------------

  /** The trie after deleting `ks` one by one. */
  function Deletes(t: Tree, ks: seq<Key>): (r: Tree)
    requires t.Node?
    ensures r.Node?
  {
    if ks == [] then t else Delete(Deletes(t, ks[..|ks| - 1]), 0, ks[|ks| - 1]).0
  }

  /** Every leaf holds a non-empty value, and no empty slice is stored. */
  ghost predicate Solid(t: Tree) {
    forall s: Stem :: Find(t, 0, s).Found? ==>
      !NoValues(Find(t, 0, s).values) && forall b: byte :: Find(t, 0, s).values[b] == Nil || Find(t, 0, s).values[b].Len() > 0
  }

  lemma RunIsSolid(ws: seq<Write>)
    requires NonEmpty(ws)
    ensures Solid(Run(ws))
  {
    forall s: Stem | Find(Run(ws), 0, s).Found?
      ensures !NoValues(Find(Run(ws), 0, s).values)
      ensures forall b: byte :: Find(Run(ws), 0, s).values[b] == Nil || Find(Run(ws), 0, s).values[b].Len() > 0
    {
      RunDescribes(ws, s);
      var vs := Find(Run(ws), 0, s).values;
      hide Run, Find;
      var i :| 0 <= i < |ws| && KeyToStem(ws[i].key) == s;
      WrittenIsKept(ws, i);
      KeyParts(ws[i].key);
      LatestIsSolid(ws, ws[i].key);
      assert vs[Suffix(ws[i].key)].Len() > 0;
      forall b: byte ensures vs[b] == Nil || vs[b].Len() > 0 {
        LatestIsSolid(ws, MakeKey(s, b));
      }
    }
  }

  /** Deleting removes exactly the deleted keys, whether they were present or not; the leaves and
      internal nodes it empties are gone. */
  lemma {:induction false} GetAfterDeletes(t: Tree, ks: seq<Key>)
    requires t.Node? && Valid(t, []) && Populated(t, 0) && Solid(t)
    ensures var r := Deletes(t, ks); Valid(r, []) && Populated(r, 0) && Solid(r)
    ensures forall key: Key :: Get(Deletes(t, ks), key) == if key in ks then Nil else Get(t, key)
  {
    if ks != [] {
      var init, k := ks[..|ks| - 1], ks[|ks| - 1];
      GetAfterDeletes(t, init);
      assert ks == init + [k];
      var before, after := Deletes(t, init), Deletes(t, ks);
      DeleteOne(before, k);
      hide Deletes, Get;
      forall key: Key ensures Get(after, key) == if key in ks then Nil else Get(t, key) {
        assert key in ks <==> key in init || key == k;
      }
    }
  }

  lemma DeleteOne(t: Tree, k: Key)
    requires t.Node? && Valid(t, []) && Populated(t, 0) && Solid(t)
    ensures var r := Delete(t, 0, k).0; Valid(r, []) && Populated(r, 0) && Solid(r)
    ensures forall key: Key :: Get(Delete(t, 0, k).0, key) == if key == k then Nil else Get(t, key)
  {
    var r := Delete(t, 0, k).0;
    DeleteValid(t, [], k);
    DeletePopulated(t, 0, k);
    forall s: Stem ensures Find(r, 0, s) == if s == KeyToStem(k) then Erased(Find(t, 0, s), k) else Find(t, 0, s) {
      FindAfterDelete(t, [], k, s);
    }
    hide Delete, Find;
    forall key: Key ensures Get(r, key) == if key == k then Nil else Get(t, key) {
      KeyParts(key);
      KeyParts(k);
      var s := KeyToStem(key);
      if s == KeyToStem(k) && Find(t, 0, s).Found? {
        var rest := Find(t, 0, s).values[Suffix(k) := Nil];
        assert NoValues(rest) ==> rest[Suffix(key)].Len() == 0;
        assert Find(t, 0, s).values[Suffix(key)] == Nil || Find(t, 0, s).values[Suffix(key)].Len() > 0;
      }
    }
    forall s: Stem | Find(r, 0, s).Found?
      ensures !NoValues(Find(r, 0, s).values)
      ensures forall b: byte :: Find(r, 0, s).values[b] == Nil || Find(r, 0, s).values[b].Len() > 0
    {
      assert Find(t, 0, s).Found?;
    }
  }

  /** Insertions of non-empty values, then deletions: exactly the undeleted last writes remain. */
  lemma InsertsThenDeletes(ws: seq<Write>, ks: seq<Key>)
    requires NonEmpty(ws)
    ensures var r := Deletes(Run(ws), ks); Valid(r, []) && Populated(r, 0) && Solid(r)
    ensures forall key: Key :: Get(Deletes(Run(ws), ks), key) == if key in ks then Nil else Latest(ws, key)
  {
    RunIsSolid(ws);
    RunIsCanonical(ws);
    CanonicalIsPopulated(Run(ws), []);
    GetAfterDeletes(Run(ws), ks);
    forall key: Key ensures Get(Run(ws), key) == Latest(ws, key) {
      GetAfterRun(ws, key);
    }
  }
}
