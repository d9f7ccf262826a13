/** From tree to proof to partial tree and back: what the verifier rebuilds is what the prover has,
    as far as the keys reach. */
module RoundTrip {
  import opened VerkleTypes
  import opened ByteOrder
  import opened Multiproof
  import opened Stateless
  import opened ProofPlan
  import opened Rebuild
  import opened Building
  import opened Planning
  import Trie

  /** The proof as MakeVerkleMultiProof leaves it, without the multipoint argument.  The root's own
      commitment is not part of it. */
  function ProofOf(root: Node, ks: Keys, post: seq<Value>): Proof
    requires Placed(root, [])
  {
    Proof(Statuses(root, 0, Stems(ks)), Points(NotRoot(PathComms(root, [], ks))), AbsenceStems(root, [], ks), ks, ReadAll(root, 0, ks), post)
  }

  function NotRoot(ls: seq<Located>): seq<Located> {
    if ls != [] && ls[0].path == [] then ls[1..] else ls
  }

  lemma {:induction false} FullAnswers(n: Node, path: Path, key: Key)
    requires Placed(n, path) && Full(n) && HasPrefix(key, path)
    ensures ReadAt(n, |path|, key).Answer?
    decreases n
  {
    if n.Internal? {
      KeyPath(key, |path|);
      FullAnswers(n.children[key[|path|]], path + [key[|path|]], key);
    }
  }

  lemma {:induction false} UnderEverything(ks: Keys)
    ensures Under(ks, []) == ks
  {
    if ks != [] {
      UnderEverything(ks[..|ks| - 1]);
    }
  }

  lemma SortedNeverDescends(s: seq<Path>)
    requires StrictlySorted(s)
    ensures NowhereDescending(s)
  {
    forall i | 0 < i < |s| ensures !Less(s[i], s[i - 1]) {
      if Less(s[i], s[i - 1]) {
        LessTransitive(s[i], s[i - 1], s[i]);
        LessIrreflexive(s[i]);
      }
    }
  }

  lemma PlanListsEntries(p: Plan, r: Plan, es: seq<Entry>, path: Path)
    requires Consistent(r) && p.paths == [] && Noted(p, r, es, path)
    ensures PlanEntries(r) == es
  {
    forall j | 0 <= j < |es| ensures PlanEntries(r)[j] == es[j] {
      assert es[j] in es;
      assert r.paths[j] == EntryPaths(es)[j];
    }
  }

  lemma RootFacts(root: Node, ks: Keys)
    requires root.Internal? && Placed(root, []) && Full(root) && ks != []
    ensures Agrees(root, [], ks, ReadAll(root, 0, ks)) && Touched(ks, []) && Reaches(root, root, []) && Under(ks, []) == ks
  {
    assert Touched(ks, []) by {
      assert ks[0] in ks && HasPrefix(ks[0], []);
    }
    UnderEverything(ks);
    forall j | 0 <= j < |ks| ensures ReadAt(root, 0, ks[j]) == Answer(ReadAll(root, 0, ks)[j]) {
      FullAnswers(root, [], ks[j]);
    }
  }

  /** The statuses of a proof lead to the entries of the tree, and use up its absence stems. */
  lemma PlanIsRecovered(root: Node, ks: Keys)
    requires root.Internal? && Placed(root, []) && Full(root) && SortedKeys(ks) && ks != []
    ensures var plan := Outcome(root, ks, ReadAll(root, 0, ks), Plan(map[], [], AbsenceStems(root, [], ks)), Stems(ks));
            plan.Ok? && plan.value.poas == [] && PlanEntries(plan.value) == Entries(root, [], ks, ReadAll(root, 0, ks))
  {
    var pre, p := ReadAll(root, 0, ks), Plan(map[], [], AbsenceStems(root, [], ks));
    RootFacts(root, ks);
    assert NothingBelow(p, []) && Consistent(p);
    assert AbsenceStems(root, [], ks) + [] == p.poas;
    hide Reaches, Agrees, Touched, Under, Stems, ReadAll, AbsenceStems, Outcome, Placed, Full, SortedKeys, PlanEntries, Entries, Assigned;
    AssignNode(root, root, [], ks, pre, p, []);
    AssignedFacts(root, [], ks, pre, p, Stems(ks), Entries(root, [], ks, pre), []);
    PlanListsEntries(p, Outcome(root, ks, pre, p, Stems(ks)).value, Entries(root, [], ks, pre), []);
  }

  lemma RootCommsFirst(root: Node, ks: Keys)
    requires root.Internal? && Placed(root, [])
    ensures Points(NotRoot(PathComms(root, [], ks))) == Points(CommsBelow(root, [], ks, NODE_WIDTH)) + []
  {
  }

  /** Every commitment of the proof finds its own place, none is left over, and the result is the
      tree cut down to the keys. */
  lemma TreeIsRebuilt(root: Node, ks: Keys, post: seq<Value>)
    requires root.Internal? && Placed(root, []) && Full(root) && SortedKeys(ks) && ks != [] && |post| == |ks|
    ensures TreeFromProof(ProofOf(root, ks, post), root.comm) == Ok(Built(Partial(root, [], ks), []))
  {
    var pre := ReadAll(root, 0, ks);
    RootFacts(root, ks);
    RootCommsFirst(root, ks);
    AbsenceSorted(root, [], ks);
    SortedNeverDescends(AbsenceStems(root, [], ks));
    PlanIsRecovered(root, ks);
    hide Reaches, Agrees, Touched, Under, Stems, ReadAll, AbsenceStems, Placed, Full, SortedKeys, PlanEntries, Entries, Assigned;
    hide AssignAll, CreateAll, Points, NotRoot, CommsBelow, PathComms, NowhereDescending, Statuses, PresentPaths, Partial;
    BuildNode(root, [], ks, pre, []);
  }

  /** The whole way round, for any committed tree and any sorted, non-empty list of keys: the rebuilt
      tree answers every key with the value of the original, nil included, all commitments are
      used, and the verifier walking it claims what the prover claimed, in the same order. */
  lemma StatelessRoundTrip(t: Trie.Tree, ks: Keys, post: seq<Value>)
    requires t.Node? && Trie.Valid(t, []) && SortedKeys(ks) && ks != [] && |post| == |ks|
    ensures Placed(Resolved(t), [])
    ensures var root := Resolved(t);
            var rebuilt := TreeFromProof(ProofOf(root, ks, post), Trie.Commitment(t));
            && rebuilt.Ok? && rebuilt.value.comms == []
            && (forall k :: k in ks ==> ReadAt(rebuilt.value.node, 0, k) == Answer(Trie.Get(t, k)))
            && Placed(rebuilt.value.node, [])
            && SameClaims(Openings(root, [], ks), Openings(rebuilt.value.node, [], ks))
            && ReadAll(rebuilt.value.node, 0, ks) == ReadAll(root, 0, ks)
  {
    var root := Resolved(t);
    ResolvedIsFull(t);
    ResolvedIsPlaced(t, []);
    RootFacts(root, ks);
    assert root.Internal? && root.comm == Trie.Commitment(t);
    var r := Partial(root, [], ks);
    hide Resolved, Partial, Reaches, Agrees, Touched, Under, Openings, SameClaims, TreeFromProof, ProofOf, Full, Placed, SortedKeys;
    TreeIsRebuilt(root, ks, post);
    PartialIsPlaced(root, [], ks);
    PartialSameClaims(root, [], ks);
    forall k | k in ks ensures ReadAt(r, 0, k) == Answer(Trie.Get(t, k)) == ReadAt(root, 0, k) {
      PartialAnswers(root, [], ks, k);
      ReadResolved(t, [], k);
    }
    SameReads(r, root, ks);
  }

  lemma SameReads(n: Node, m: Node, ks: Keys)
    requires forall k :: k in ks ==> ReadAt(n, 0, k) == ReadAt(m, 0, k)
    ensures ReadAll(n, 0, ks) == ReadAll(m, 0, ks)
  {
    assert forall j :: 0 <= j < |ks| ==> ks[j] in ks;
  }
}
