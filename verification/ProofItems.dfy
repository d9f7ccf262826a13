/** GetProofItems and Merge as the source runs them: loops over sorted keys that append to lists. */
module ProofItems {
  import opened Pedersen
  import opened VerkleTypes
  import opened ByteOrder
  import opened Multiproof
  import opened ProofPlan

  // ----- Grouping keys ---------------------------------------------------

  /** Maximal stretches of neighbouring keys with the same byte at `depth`. */
  function Runs(keys: Keys, depth: nat): (r: seq<Keys>)
    requires depth < KEY_SIZE
    ensures forall g :: 0 <= g < |r| ==> r[g] != []
    ensures keys != [] ==> r != [] && r[|r| - 1][|r[|r| - 1]| - 1] == keys[|keys| - 1]
  {
    if keys == [] then []
    else
      var init, last := keys[..|keys| - 1], keys[|keys| - 1];
      var before := Runs(init, depth);
      if init != [] && init[|init| - 1][depth] == last[depth] then
        before[..|before| - 1] + [before[|before| - 1] + [last]]
      else before + [[last]]
  }

  method GroupKeys(keys: Keys, depth: nat) returns (groups: seq<Keys>)
    requires depth < KEY_SIZE
    ensures groups == Runs(keys, depth)
  {
    if |keys| == 0 {
      return [];
    }
    if |keys| == 1 {
      assert keys[..0] == [] && keys == [keys[0]];
      return [keys];
    }
    groups := [];
    var firstkey, lastkey := 0, 1;
    RunsOfOne(keys, depth);
    while lastkey < |keys|
      invariant 0 <= firstkey < lastkey <= |keys|
      invariant groups + [keys[firstkey..lastkey]] == Runs(keys[..lastkey], depth)
    {
      hide Runs;
      RunsStep(keys, depth, groups, firstkey, lastkey);
      var key := keys[lastkey];
      var keyidx := key[depth];
      var previdx := keys[lastkey - 1][depth];
      if keyidx != previdx {
        groups := groups + [keys[firstkey..lastkey]];
        firstkey := lastkey;
      }
      lastkey := lastkey + 1;
    }
    groups := groups + [keys[firstkey..lastkey]];
    assert keys[..lastkey] == keys;
  }

  lemma RunsOfOne(keys: Keys, depth: nat)
    requires depth < KEY_SIZE && keys != []
    ensures [] + [keys[0..1]] == Runs(keys[..1], depth)
  {
    assert keys[..1][..0] == [] && keys[..1] == [keys[0]] == keys[0..1];
  }

  lemma RunsStep(keys: Keys, depth: nat, groups: seq<Keys>, first: nat, last: nat)
    requires depth < KEY_SIZE && first < last < |keys|
    requires groups + [keys[first..last]] == Runs(keys[..last], depth)
    ensures keys[last][depth] != keys[last - 1][depth] ==>
              (groups + [keys[first..last]]) + [keys[last..last + 1]] == Runs(keys[..last + 1], depth)
    ensures keys[last][depth] == keys[last - 1][depth] ==> groups + [keys[first..last + 1]] == Runs(keys[..last + 1], depth)
  {
    var run := keys[first..last];
    assert keys[..last + 1][..last] == keys[..last] && keys[..last + 1][last] == keys[last];
    assert keys[last..last + 1] == [keys[last]];
    assert keys[first..last + 1] == run + [keys[last]];
    assert (groups + [run])[..|groups|] == groups;
  }

  /** The keys below a node, child by child, without the children no key leads to. */
  ghost function Groups(ks: Keys, path: Path, i: nat): seq<Keys>
    requires i <= NODE_WIDTH
  {
    if i == 0 then []
    else Groups(ks, path, i - 1) + if Touched(ks, path + [i - 1]) then [Under(ks, path + [i - 1])] else []
  }

  lemma {:induction false} RunsAppendGroup(a: Keys, b: Keys, depth: nat)
    requires depth < STEM_SIZE && b != []
    requires forall k :: k in b ==> k[depth] == b[0][depth]
    requires a != [] ==> a[|a| - 1][depth] != b[0][depth]
    ensures Runs(a + b, depth) == Runs(a, depth) + [b]
    decreases |b|
  {
    var init, last := b[..|b| - 1], b[|b| - 1];
    assert (a + b)[..|a + b| - 1] == a + init && (a + b)[|a + b| - 1] == last;
    assert b == init + [last] && last in b;
    if init == [] {
      assert a + init == a;
    } else {
      assert init[|init| - 1] in b && init[0] == b[0];
      RunsAppendGroup(a, init, depth);
      assert (Runs(a, depth) + [init])[..|Runs(a, depth)|] == Runs(a, depth);
    }
  }

  /** On sorted keys with a common prefix, grouping sorts them to the children. */
  lemma {:induction false} RunsAreGroups(ks: Keys, path: Path, i: nat)
    requires SortedKeys(ks) && |path| < STEM_SIZE && i <= NODE_WIDTH
    ensures Runs(UnderBelow(ks, path, i), |path|) == Groups(ks, path, i)
  {
    hide Runs, SortedKeys, Touched, Groups, Under, UnderBelow;
    if i == 0 {
      UnderBelowAll(ks, path);
      assert Runs([], |path|) == [] && Groups(ks, path, 0) == [] by {
        RunsOfNone(ks, path);
      }
    } else {
      var j: byte := i - 1;
      RunsAreGroups(ks, path, j);
      UnderSplits(ks, path, j);
      var a, b := UnderBelow(ks, path, j), Under(ks, path + [j]);
      SomeKey(ks, path + [j]);
      GroupsStep(ks, path, j);
      if Touched(ks, path + [j]) {
        ChildKeys(ks, path, j);
        RunsAppendGroup(a, b, |path|);
      } else {
        assert a + b == a;
      }
    }
  }

  lemma RunsOfNone(ks: Keys, path: Path)
    requires |path| < STEM_SIZE
    ensures Runs([], |path|) == [] && Groups(ks, path, 0) == []
  {
  }

  lemma GroupsStep(ks: Keys, path: Path, i: byte)
    ensures Groups(ks, path, i + 1) == if Touched(ks, path + [i]) then Groups(ks, path, i) + [Under(ks, path + [i])] else Groups(ks, path, i)
  {
    hide Touched, Under;
  }

  lemma ChildKeys(ks: Keys, path: Path, i: byte)
    requires |path| < STEM_SIZE && Under(ks, path + [i]) != []
    ensures var a, b := UnderBelow(ks, path, i), Under(ks, path + [i]);
            (forall k :: k in b ==> k[|path|] == b[0][|path|]) && (a != [] ==> a[|a| - 1][|path|] != b[0][|path|])
  {
    var a, b := UnderBelow(ks, path, i), Under(ks, path + [i]);
    forall k | k in b ensures k[|path|] == i {
      KeyStep(k, path, i);
    }
    assert b[0] in b && (a != [] ==> a[|a| - 1] in a);
  }

  lemma SomeKey(ks: Keys, path: Path)
    ensures Touched(ks, path) <==> Under(ks, path) != []
  {
    if Touched(ks, path) {
      var k :| k in ks && HasPrefix(k, path);
      assert k in Under(ks, path);
    } else {
      NoKeysUnder(ks, path);
    }
  }

  // ----- ProofElements ---------------------------------------------------

  /** A pointer to a commitment: `owner` tells pointers apart. */
  datatype Ref = Ref(owner: Path, point: Point)

  /** The index of claims seen, built on the first Merge. */
  datatype Dedups = NotBuilt | Index(seen: map<Path, set<byte>>)

  predicate SeenIn(seen: map<Path, set<byte>>, owner: Path, z: byte) {
    owner in seen && z in seen[owner]
  }

  function MarkSeen(seen: map<Path, set<byte>>, owner: Path, z: byte): (r: map<Path, set<byte>>)
    ensures forall o, y :: SeenIn(r, o, y) <==> SeenIn(seen, o, y) || (o == owner && y == z)
  {
    seen[owner := (if owner in seen then seen[owner] else {}) + {z}]
  }

  /** The map lists exactly these commitments. */
  ghost predicate Lists(m: map<Path, Point>, ls: seq<Located>) {
    && (forall p :: p in m <==> exists j :: 0 <= j < |ls| && ls[j].path == p)
    && (forall j :: 0 <= j < |ls| && ls[j].path in m ==> m[ls[j].path] == ls[j].point)
  }

  function Zip(cis: seq<Ref>, zis: seq<byte>, yis: seq<Scalar>, fis: seq<Poly>): (r: seq<Opening>)
    requires |cis| == |zis| == |yis| == |fis|
    ensures |r| == |cis|
    ensures forall j :: 0 <= j < |r| ==> r[j] == Opening(cis[j].owner, cis[j].point, zis[j], yis[j], fis[j])
  {
    seq(|cis|, j requires 0 <= j < |cis| => Opening(cis[j].owner, cis[j].point, zis[j], yis[j], fis[j]))
  }

  method SeenClaims(cis: seq<Ref>, zis: seq<byte>, ghost ops: seq<Opening>) returns (seen: map<Path, set<byte>>)
    requires |cis| == |zis| == |ops| && forall j :: 0 <= j < |ops| ==> ops[j].owner == cis[j].owner && ops[j].z == zis[j]
    ensures forall o: Opening :: SeenIn(seen, o.owner, o.z) <==> Claimed(ops, o)
  {
    seen := map[];
    var i := 0;
    while i < |cis|
      invariant 0 <= i <= |cis|
      invariant forall o: Opening :: SeenIn(seen, o.owner, o.z) <==> Claimed(ops[..i], o)
    {
      seen := MarkSeen(seen, cis[i].owner, zis[i]);
      forall o: Opening ensures Claimed(ops[..i + 1], o) <==> Claimed(ops[..i], o) || SameClaim(ops[i], o) {
        assert ops[..i + 1] == ops[..i] + [ops[i]];
        ClaimedAppend(ops[..i], ops[i], o);
      }
      i := i + 1;
    }
    assert ops[..i] == ops;
  }

  method MergePaths(mine: map<Path, Point>, theirs: map<Path, Point>) returns (m: map<Path, Point>)
    ensures m == theirs + mine
  {
    m := mine;
    var todo := theirs.Keys;
    while todo != {}
      invariant todo <= theirs.Keys && mine.Keys <= m.Keys
      invariant forall p :: p in m <==> p in mine || (p in theirs && p !in todo)
      invariant forall p :: p in m ==> m[p] == if p in mine then mine[p] else theirs[p]
    {
      var path :| path in todo;
      if path !in m {
        m := m[path := theirs[path]];
      }
      todo := todo - {path};
    }
  }

  class ProofElements {
    var cis: seq<Ref>
    var zis: seq<byte>
    var yis: seq<Scalar>
    var fis: seq<Poly>
    var byPath: map<Path, Point>
    var vals: seq<Value>
    var dedups: Dedups

    /** The four lists are in lockstep and the index knows what is in them. */
    ghost predicate Valid()
      reads `cis, `zis, `yis, `fis, `dedups
      ensures Valid() ==> |cis| == |zis| == |yis| == |fis|
    {
      && |cis| == |zis| == |yis| == |fis|
      && (dedups.Index? ==> forall o: Opening :: SeenIn(dedups.seen, o.owner, o.z) <==> Claimed(Ops(), o))
    }

    /** The parallel lists read together. */
    ghost function Ops(): (r: seq<Opening>)
      requires |cis| == |zis| == |yis| == |fis|
      reads `cis, `zis, `yis, `fis
    {
      Zip(cis, zis, yis, fis)
    }

    constructor ()
      ensures Valid() && Ops() == [] && byPath == map[] && vals == [] && dedups == NotBuilt
    {
      cis, zis, yis, fis := [], [], [], [];
      byPath, vals, dedups := map[], [], NotBuilt;
    }

    method Append(c: Ref, z: byte, y: Scalar, f: Poly)
      requires Valid() && dedups.NotBuilt?
      modifies `cis, `zis, `yis, `fis
      ensures Valid() && Ops() == old(Ops()) + [Opening(c.owner, c.point, z, y, f)]
    {
      cis, zis, yis, fis := cis + [c], zis + [z], yis + [y], fis + [f];
    }

    method BuildIndex()
      requires Valid()
      modifies `dedups
      ensures Valid() && Ops() == old(Ops()) && dedups.Index?
    {
      if dedups.NotBuilt? {
        var seen := SeenClaims(cis, zis, Ops());
        dedups := Index(seen);
      }
    }

    /** Merge: the other's claims that are not known yet, its paths that are not known yet, its values. */
    method Merge(other: ProofElements)
      requires Valid() && other.Valid() && other != this
      modifies this
      ensures Valid() && Ops() == MergeOps(old(Ops()), other.Ops()) && dedups.Index?
      ensures byPath == other.byPath + old(byPath) && vals == old(vals) + other.vals
    {
      BuildIndex();
      MergeClaims(other);
      byPath := MergePaths(byPath, other.byPath);
      vals := vals + other.vals;
    }

    method MergeClaims(other: ProofElements)
      requires Valid() && other.Valid() && other != this && dedups.Index?
      modifies this
      ensures Valid() && Ops() == MergeOps(old(Ops()), other.Ops()) && dedups.Index?
      ensures byPath == old(byPath) && vals == old(vals)
    {
      hide Valid;
      ghost var mine, theirs := Ops(), other.Ops();
      var i := 0;
      while i < |other.cis|
        invariant 0 <= i <= |other.cis| && Valid() && dedups.Index?
        invariant |cis| == |zis| == |yis| == |fis|
        invariant Ops() == MergeOps(mine, theirs[..i])
        invariant byPath == old(byPath) && vals == old(vals)
      {
        MergeOne(other.cis[i], other.zis[i], other.yis[i], other.fis[i]);
        assert theirs[..i + 1][..i] == theirs[..i] && theirs[..i + 1][i] == theirs[i];
        i := i + 1;
      }
      assert theirs[..i] == theirs;
    }

    /** One claim of the other: skipped when known. */
    method MergeOne(c: Ref, z: byte, y: Scalar, f: Poly)
      requires Valid() && dedups.Index?
      modifies this
      ensures Valid() && dedups.Index? && byPath == old(byPath) && vals == old(vals)
      ensures var o := Opening(c.owner, c.point, z, y, f);
        Ops() == if Claimed(old(Ops()), o) then old(Ops()) else old(Ops()) + [o]
    {
      ghost var o, before := Opening(c.owner, c.point, z, y, f), Ops();
      if SeenIn(dedups.seen, c.owner, z) {
        assert SeenIn(dedups.seen, o.owner, o.z);
        return;
      }
      assert !SeenIn(dedups.seen, o.owner, o.z);
      dedups := Index(MarkSeen(dedups.seen, c.owner, z));
      cis, zis, yis, fis := cis + [c], zis + [z], yis + [y], fis + [f];
      assert Ops() == before + [o];
      forall q: Opening ensures SeenIn(dedups.seen, q.owner, q.z) <==> Claimed(Ops(), q) {
        ClaimedAppend(before, o, q);
      }
    }
  }
}
