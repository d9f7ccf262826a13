/** The verifier's side: values, extension statuses, commitments by path and absence stems of a
    proof, and the partial tree that can be rebuilt from them. */
module Stateless {
  import opened Pedersen
  import opened VerkleTypes
  import opened ByteOrder
  import opened Multiproof
  import Trie

  // ----- Values and extension statuses, key by key ------------------------

  const EXT_ABSENT_EMPTY: nat := 0
  const EXT_ABSENT_OTHER: nat := 1
  const EXT_PRESENT: nat := 2

  /** A status and a depth packed into one byte. */
  function PackStatus(status: nat, depth: nat): byte
    requires status < 3 && depth <= STEM_SIZE
  {
    8 * depth + status
  }

  function StatusOf(es: byte): nat {
    es % 4
  }

  function DepthOf(es: byte): nat {
    es / 8
  }

  lemma PackRoundTrip(status: nat, depth: nat)
    requires status < 3 && depth <= STEM_SIZE
    ensures StatusOf(PackStatus(status, depth)) == status && DepthOf(PackStatus(status, depth)) == depth
  {
  }

  /** Where the walk along a stem ends. */
  datatype End = End(status: nat, depth: nat)

  /** The end of the walk of stem `s` below a node placed at `depth`. */
  function Walk(n: Node, depth: nat, s: Stem): (e: End)
    requires depth <= STEM_SIZE
    ensures e.status < 3 && depth <= e.depth <= STEM_SIZE
    decreases n
  {
    match n
    case Empty => End(EXT_ABSENT_EMPTY, depth)
    case Unknown => End(EXT_ABSENT_EMPTY, depth)
    case Leaf(stem, _, _, _, _) => End(if stem == s then EXT_PRESENT else EXT_ABSENT_OTHER, depth)
    case Stub(_, _) => End(EXT_ABSENT_OTHER, depth)
    case Internal(children, _) =>
      if depth < STEM_SIZE && |children| == NODE_WIDTH then Walk(children[s[depth]], depth + 1, s)
      else End(EXT_ABSENT_EMPTY, depth)
  }

  /** A read in a partial tree: GetValuesAtStem then the suffix. */
  datatype Read = Answer(value: Value) | MissingNode | IsPOAStub

  function ReadAt(n: Node, depth: nat, key: Key): Read
    decreases n
  {
    match n
    case Empty => Answer(Nil)
    case Unknown => MissingNode
    case Leaf(stem, values, _, _, _) => Answer(if stem == KeyToStem(key) then values[Suffix(key)] else Nil)
    case Stub(stem, _) => if stem == KeyToStem(key) then IsPOAStub else Answer(Nil)
    case Internal(children, _) =>
      if depth < STEM_SIZE && |children| == NODE_WIDTH then ReadAt(children[key[depth]], depth + 1, key) else MissingNode
  }

  /** The values read for the keys, in key order. */
  function ReadAll(n: Node, depth: nat, ks: Keys): (r: seq<Value>)
    ensures |r| == |ks|
  {
    seq(|ks|, j requires 0 <= j < |ks| => match ReadAt(n, depth, ks[j]) case Answer(v) => v case _ => Nil)
  }

  /** The extension statuses of the stems: how the walk along each ends, and where. */
  function Statuses(n: Node, depth: nat, stems: seq<Stem>): (r: seq<byte>)
    requires depth <= STEM_SIZE
    ensures |r| == |stems|
    ensures forall j :: 0 <= j < |stems| ==>
      StatusOf(r[j]) == Walk(n, depth, stems[j]).status && DepthOf(r[j]) == Walk(n, depth, stems[j]).depth
  {
    seq(|stems|, j requires 0 <= j < |stems| => PackStatus(Walk(n, depth, stems[j]).status, Walk(n, depth, stems[j]).depth))
  }

  lemma StatusByte(n: Node, depth: nat, stems: seq<Stem>, j: nat)
    requires depth <= STEM_SIZE && j < |stems|
    ensures Statuses(n, depth, stems)[j] == PackStatus(Walk(n, depth, stems[j]).status, Walk(n, depth, stems[j]).depth)
  {
    hide Walk, PackStatus, StatusOf, DepthOf;
  }

  /** On the prover's tree a read is Get. */
  lemma {:induction false} ReadResolved(t: Trie.Tree, path: Path, key: Key)
    requires Trie.Valid(t, path)
    ensures ReadAt(Resolved(t), |path|, key)
         == Answer(match Trie.Find(t, |path|, KeyToStem(key)) case Absent => Nil case Found(vs) => vs[Suffix(key)])
    decreases t
  {
    if t.Node? {
      ReadResolved(t.children[key[|path|]], path + [key[|path|]], key);
    }
  }

  // ----- The partial tree ------------------------------------------------

  /** The values of a stem that were asked for. */
  function Shown(stem: Stem, values: Values, ks: Keys): (r: Values)
    ensures forall b: byte :: r[b] == if MakeKey(stem, b) in ks then values[b] else Nil
  {
    seq(NODE_WIDTH, b requires 0 <= b < NODE_WIDTH => if MakeKey(stem, b) in ks then values[b] else Nil)
  }

  /** What the keys `ks` reveal of the tree: subtrees no key leads to are unknown, a leaf nobody
      asked for is a stub, the others show the values asked for and the halves they are in. */
  function Partial(n: Node, path: Path, ks: Keys): Node
    decreases n
  {
    match n
    case Empty => Empty
    case Unknown => Unknown
    case Leaf(stem, values, comm, c1, c2) =>
      if Requested(ks, stem) then
        Leaf(stem, Shown(stem, values, ks), comm,
             if RequestedHalf(ks, stem, 0) then c1 else IDENTITY,
             if RequestedHalf(ks, stem, 128) then c2 else IDENTITY)
      else Stub(stem, comm)
    case Stub(stem, comm) => n
    case Internal(children, comm) =>
      Internal(seq(|children|, i requires 0 <= i < |children| =>
        if i < 256 && Touched(ks, path + [i]) then Partial(children[i], path + [i], ks) else Unknown), comm)
  }

  lemma {:induction false} PartialIsPlaced(n: Node, path: Path, ks: Keys)
    requires Placed(n, path)
    ensures Placed(Partial(n, path, ks), path)
    decreases n
  {
    if n.Internal? {
      forall i | 0 <= i < NODE_WIDTH ensures Placed(Partial(n, path, ks).children[i], path + [i]) {
        PartialIsPlaced(n.children[i], path + [i], ks);
      }
    }
  }

  /** A tree without unknown parts or stubs. */
  ghost predicate Full(n: Node) {
    match n
    case Empty => true
    case Unknown => false
    case Leaf(_, _, _, _, _) => true
    case Stub(_, _) => false
    case Internal(children, _) => forall i :: 0 <= i < |children| ==> Full(children[i])
  }

  lemma {:induction false} ResolvedIsFull(t: Trie.Tree)
    ensures Full(Resolved(t))
  {
    if t.Node? {
      forall i | 0 <= i < |t.children| ensures Full(Resolved(t.children[i])) {
        ResolvedIsFull(t.children[i]);
      }
    }
  }

  lemma KeyPath(key: Key, d: nat)
    requires d < STEM_SIZE
    ensures key[..d + 1] == key[..d] + [key[d]]
    ensures KeyToStem(key)[..d] == key[..d] && KeyToStem(key)[d] == key[d]
  {
  }

  /** The partial tree answers every key asked for, with the original value. */
  lemma {:induction false} PartialAnswers(n: Node, path: Path, ks: Keys, key: Key)
    requires Placed(n, path) && Full(n) && key in ks && HasPrefix(key, path)
    ensures ReadAt(Partial(n, path, ks), |path|, key) == ReadAt(n, |path|, key)
    decreases n
  {
    match n
    case Empty =>
    case Leaf(stem, values, _, _, _) =>
      if KeyToStem(key) == stem {
        assert MakeKey(stem, Suffix(key)) == key;
      }
    case Internal(children, _) =>
      KeyPath(key, |path|);
      assert HasPrefix(key, path + [key[|path|]]);
      PartialAnswers(children[key[|path|]], path + [key[|path|]], ks, key);
  }

  // ----- The verifier claims what the prover claimed ----------------------

  /** Same claims in the same order; the polynomials are the prover's business. */
  ghost predicate SameClaims(a: seq<Opening>, b: seq<Opening>) {
    |a| == |b| && forall i :: 0 <= i < |a| ==> a[i] == b[i].(f := a[i].f)
  }

  lemma {:induction false} MergeSameClaims(a: seq<Opening>, b: seq<Opening>, a': seq<Opening>, b': seq<Opening>)
    requires SameClaims(a, a') && SameClaims(b, b')
    ensures SameClaims(MergeOps(a, b), MergeOps(a', b'))
    decreases |b|
  {
    if b != [] {
      var n := |b| - 1;
      MergeSameClaims(a, b[..n], a', b'[..n]);
      SameClaimed(MergeOps(a, b[..n]), MergeOps(a', b'[..n]), b[n], b'[n]);
    }
  }

  lemma SameClaimed(a: seq<Opening>, a': seq<Opening>, o: Opening, o': Opening)
    requires SameClaims(a, a') && SameClaim(o, o')
    ensures Claimed(a, o) <==> Claimed(a', o')
  {
    if Claimed(a, o) {
      var i :| 0 <= i < |a| && SameClaim(a[i], o);
      assert SameClaim(a'[i], o');
    }
    if Claimed(a', o') {
      var i :| 0 <= i < |a'| && SameClaim(a'[i], o');
      assert SameClaim(a[i], o);
    }
  }

  lemma PartialComm(n: Node, path: Path, ks: Keys)
    ensures Comm(Partial(n, path, ks)) == Comm(n)
  {
  }

  lemma {:induction false} OwnSameClaims(n: Node, path: Path, ks: Keys, i: nat)
    requires n.Internal? && Placed(n, path) && i <= NODE_WIDTH
    ensures SameClaims(OwnOpenings(n.children, n.comm, path, ks, i), OwnOpenings(Partial(n, path, ks).children, n.comm, path, ks, i))
  {
    if i > 0 {
      OwnSameClaims(n, path, ks, i - 1);
      if Touched(ks, path + [i - 1]) {
        PartialComm(n.children[i - 1], path + [i - 1], ks);
      }
    }
  }

  lemma RequestedUnder(ks: Keys, path: Path, stem: Stem, first: nat)
    requires Trie.Extends(stem, path)
    ensures Requested(Under(ks, path), stem) <==> Requested(ks, stem)
    ensures RequestedHalf(Under(ks, path), stem, first) <==> RequestedHalf(ks, stem, first)
  {
    forall k | k in ks && KeyToStem(k) == stem ensures k in Under(ks, path) {
      assert k[..|path|] == stem[..|path|];
    }
  }

  lemma SlotPairSameClaims(stem: Stem, values: Values, c1: Point, c2: Point, d1: Point, d2: Point, path: Path, ks: Keys, suffix: byte)
    requires MakeKey(stem, suffix) in ks
    requires if suffix < 128 then c1 == d1 else c2 == d2
    ensures SameClaims(SlotPair(values, c1, c2, path, suffix), SlotPair(Shown(stem, values, ks), d1, d2, path, suffix))
  {
    hide LeafToComms;
  }

  lemma {:induction false} SlotsSameClaims(stem: Stem, values: Values, c1: Point, c2: Point, d1: Point, d2: Point, path: Path, ks: Keys, all: Keys)
    requires forall k :: k in ks ==> k in all
    requires RequestedHalf(all, stem, 0) ==> c1 == d1
    requires RequestedHalf(all, stem, 128) ==> c2 == d2
    ensures SameClaims(SlotOpenings(stem, values, c1, c2, path, ks), SlotOpenings(stem, Shown(stem, values, all), d1, d2, path, ks))
  {
    if ks != [] {
      var k := ks[|ks| - 1];
      SlotsSameClaims(stem, values, c1, c2, d1, d2, path, ks[..|ks| - 1], all);
      if KeyToStem(k) == stem {
        assert MakeKey(stem, Suffix(k)) == k;
        SlotPairSameClaims(stem, values, c1, c2, d1, d2, path, all, Suffix(k));
      }
    }
  }

  lemma ConcatSameClaims(a: seq<Opening>, b: seq<Opening>, a': seq<Opening>, b': seq<Opening>)
    requires SameClaims(a, a') && SameClaims(b, b')
    ensures SameClaims(a + b, a' + b')
  {
  }

  lemma ExtensionSameClaims(stem: Stem, comm: Point, c1: Point, c2: Point, d1: Point, d2: Point, path: Path, ks: Keys)
    requires RequestedHalf(ks, stem, 0) ==> c1 == d1
    requires RequestedHalf(ks, stem, 128) ==> c2 == d2
    ensures SameClaims(ExtensionOpenings(stem, comm, c1, c2, path, ks), ExtensionOpenings(stem, comm, d1, d2, path, ks))
  {
  }

  lemma PartialLeafSameClaims(n: Node, path: Path, ks: Keys)
    requires n.Leaf? && Placed(n, path) && Touched(ks, path) && Placed(Partial(n, path, ks), path)
    ensures SameClaims(Openings(n, path, ks), Openings(Partial(n, path, ks), path, ks))
  {
    var Leaf(stem, values, comm, c1, c2) := n;
    var under := Under(ks, path);
    RequestedUnder(ks, path, stem, 0);
    RequestedUnder(ks, path, stem, 128);
    if Requested(ks, stem) {
      var Leaf(_, shown, _, d1, d2) := Partial(n, path, ks);
      hide Partial, ExtensionOpenings, SlotOpenings, Requested, RequestedHalf;
      SlotsSameClaims(stem, values, c1, c2, d1, d2, path, under, ks);
      ExtensionSameClaims(stem, comm, c1, c2, d1, d2, path, under);
      ConcatSameClaims(ExtensionOpenings(stem, comm, c1, c2, path, under), SlotOpenings(stem, values, c1, c2, path, under),
                       ExtensionOpenings(stem, comm, d1, d2, path, under), SlotOpenings(stem, shown, d1, d2, path, under));
    } else {
      hide SlotOpenings, ExtensionOpenings, Requested, RequestedHalf;
      NoSlots(stem, values, c1, c2, path, under);
      StubSameClaims(stem, comm, c1, c2, path, under);
    }
  }

  lemma StubSameClaims(stem: Stem, comm: Point, c1: Point, c2: Point, path: Path, ks: Keys)
    requires !RequestedHalf(ks, stem, 0) && !RequestedHalf(ks, stem, 128)
    ensures SameClaims(ExtensionOpenings(stem, comm, c1, c2, path, ks) + [], ExtensionOpenings(stem, comm, IDENTITY, IDENTITY, path, []))
  {
  }

  /** The partial tree produces the prover's claims, one by one. */
  lemma {:induction false} PartialSameClaims(n: Node, path: Path, ks: Keys)
    requires Placed(n, path) && Full(n) && Touched(ks, path) && Placed(Partial(n, path, ks), path)
    ensures SameClaims(Openings(n, path, ks), Openings(Partial(n, path, ks), path, ks))
    decreases n, NODE_WIDTH + 1
  {
    match n
    case Empty =>
    case Leaf(_, _, _, _, _) => PartialLeafSameClaims(n, path, ks);
    case Internal(_, _) => PartialSameBelow(n, path, ks, NODE_WIDTH);
  }

  lemma {:induction false} NoSlots(stem: Stem, values: Values, c1: Point, c2: Point, path: Path, ks: Keys)
    requires !Requested(ks, stem)
    ensures SlotOpenings(stem, values, c1, c2, path, ks) == []
    ensures !RequestedHalf(ks, stem, 0) && !RequestedHalf(ks, stem, 128)
  {
    if ks != [] {
      NoSlots(stem, values, c1, c2, path, ks[..|ks| - 1]);
    }
  }

  lemma {:induction false} PartialSameBelow(n: Node, path: Path, ks: Keys, i: nat)
    requires n.Internal? && Placed(n, path) && Full(n) && Placed(Partial(n, path, ks), path) && i <= NODE_WIDTH
    ensures SameClaims(MergedBelow(n, path, ks, i), MergedBelow(Partial(n, path, ks), path, ks, i))
    decreases n, i
  {
    if i == 0 {
      OwnSameClaims(n, path, ks, NODE_WIDTH);
    } else {
      PartialSameBelow(n, path, ks, i - 1);
      var c, q, p := n.children[i - 1], path + [i - 1], Partial(n, path, ks);
      if Touched(ks, q) {
        assert p.children[i - 1] == Partial(c, q, ks) && Placed(p.children[i - 1], q);
        hide Partial, Openings, OwnOpenings, SameClaims, Full, Placed, Touched;
        PartialSameClaims(c, q, ks);
        MergeSameClaims(MergedBelow(n, path, ks, i - 1), Openings(c, q, ks),
                        MergedBelow(p, path, ks, i - 1), Openings(p.children[i - 1], q, ks));
      }
    }
  }
}
