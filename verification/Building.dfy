/** The run of CreatePath calls rebuilds the partial tree and uses up the commitments on the way. */
module Building {
  import opened Pedersen
  import opened VerkleTypes
  import opened ByteOrder
  import opened Multiproof
  import opened Stateless
  import opened ProofPlan
  import opened Rebuild

  function Repeat(e: Entry, count: nat): (r: seq<Entry>)
    ensures |r| == count && forall x :: x in r ==> x == e
  {
    seq(count, _ => e)
  }

  /** The paths and infos that the keys below `path` give rise to. */
  function Entries(n: Node, path: Path, ks: Keys, pre: seq<Value>): seq<Entry>
    requires Placed(n, path) && |ks| == |pre|
    decreases n, NODE_WIDTH + 1
  {
    match n
    case Empty => Repeat(Entry(path, AbsentEmpty()), |Stems(Under(ks, path))|)
    case Unknown => []
    case Leaf(stem, _, _, _, _) => [Entry(path, if Requested(ks, stem) then Present(ks, pre, stem) else AbsentOther(stem))]
    case Stub(_, _) => []
    case Internal(_, _) => EntriesBelow(n, path, ks, pre, NODE_WIDTH)
  }

  function EntriesBelow(n: Node, path: Path, ks: Keys, pre: seq<Value>, i: nat): seq<Entry>
    requires n.Internal? && Placed(n, path) && |ks| == |pre| && i <= NODE_WIDTH
    decreases n, i
  {
    if i == 0 then []
    else
      EntriesBelow(n, path, ks, pre, i - 1)
      + if Touched(ks, path + [i - 1]) then Entries(n.children[i - 1], path + [i - 1], ks, pre) else []
  }

  /** All entries lead below `path`, strictly below when `deep`. */
  ghost predicate LeadBelow(es: seq<Entry>, path: Path, deep: bool) {
    forall e :: e in es ==> HasPrefix(e.path, path) && (deep ==> |path| < |e.path|)
  }

  lemma {:induction false} EntriesLeadBelow(n: Node, path: Path, ks: Keys, pre: seq<Value>)
    requires Placed(n, path) && |ks| == |pre|
    ensures LeadBelow(Entries(n, path, ks, pre), path, n.Internal?)
    decreases n, NODE_WIDTH + 1
  {
    if n.Internal? {
      EntriesBelowLeadBelow(n, path, ks, pre, NODE_WIDTH);
    }
  }

  lemma LeadStep(es: seq<Entry>, path: Path, i: byte)
    requires LeadBelow(es, path + [i], false)
    ensures LeadBelow(es, path, true) && forall e :: e in es ==> e.path[|path|] == i
  {
    forall e | e in es ensures HasPrefix(e.path, path) && |path| < |e.path| && e.path[|path|] == i {
      assert e.path[..|path| + 1] == path + [i];
      assert e.path[..|path|] == e.path[..|path| + 1][..|path|];
    }
  }

  lemma {:induction false} EntriesBelowLeadBelow(n: Node, path: Path, ks: Keys, pre: seq<Value>, i: nat)
    requires n.Internal? && Placed(n, path) && |ks| == |pre| && i <= NODE_WIDTH
    ensures LeadBelow(EntriesBelow(n, path, ks, pre, i), path, true)
    ensures forall e :: e in EntriesBelow(n, path, ks, pre, i) ==> e.path[|path|] < i
    decreases n, i
  {
    if i > 0 {
      EntriesBelowLeadBelow(n, path, ks, pre, i - 1);
      EntriesLeadBelow(n.children[i - 1], path + [i - 1], ks, pre);
      LeadStep(Entries(n.children[i - 1], path + [i - 1], ks, pre), path, i - 1);
    }
  }

  // ----- Runs of CreatePath ----------------------------------------------

  /** A run can be cut in two. */
  lemma {:induction false} CreateAllConcat(n: Node, d: nat, a: seq<Entry>, b: seq<Entry>, comms: seq<Point>, ks: Keys, pre: seq<Value>)
    requires Wide(n) && |ks| == |pre|
    requires forall e :: e in a + b ==> d <= |e.path|
    ensures (forall e :: e in a ==> d <= |e.path|) && (forall e :: e in b ==> d <= |e.path|)
    ensures var first := CreateAll(n, d, a, comms, ks, pre);
            CreateAll(n, d, a + b, comms, ks, pre)
            == if first.Err? then first else CreateAll(first.value.node, d, b, first.value.comms, ks, pre)
    decreases |b|
  {
    assert forall e :: e in a ==> e in a + b;
    assert forall e :: e in b ==> e in a + b;
    if b == [] {
      assert a + b == a;
    } else {
      var init, last := b[..|b| - 1], b[|b| - 1];
      assert forall e :: e in a + init ==> e in a + b;
      CreateAllConcat(n, d, a, init, comms, ks, pre);
      assert (a + b)[..|a + b| - 1] == a + init;
      assert (a + b)[|a + b| - 1] == last;
    }
  }

  /** Paths that all go on below the same internal child run inside that child. */
  lemma {:induction false} CreateInside(n: Node, path: Path, i: byte, es: seq<Entry>, comms: seq<Point>, ks: Keys, pre: seq<Value>)
    requires Wide(n) && Wide(n.children[i]) && |ks| == |pre| && LeadBelow(es, path + [i], true)
    ensures LeadBelow(es, path, true)
    ensures var inner := CreateAll(n.children[i], |path| + 1, es, comms, ks, pre);
            CreateAll(n, |path|, es, comms, ks, pre)
            == if inner.Err? then inner else Ok(Built(n.(children := n.children[i := inner.value.node]), inner.value.comms))
  {
    LeadStep(es, path, i);
    if es == [] {
      assert n.children[i := n.children[i]] == n.children;
    } else {
      var init, e := es[..|es| - 1], es[|es| - 1];
      CreateInside(n, path, i, init, comms, ks, pre);
      assert e.path[|path|..][0] == i && e.path[|path|..][1..] == e.path[|path| + 1..];
      assert e in es;
      var inner := CreateAll(n.children[i], |path| + 1, init, comms, ks, pre);
      if inner.Ok? {
        var child, values := inner.value.node, SlotValues(ks, pre, e.info.stem);
        InsideStep(n, child, e.path[|path|..], i, e.info, inner.value.comms, values);
      }
    }
  }

  lemma UpdateTwice(s: seq<Node>, i: nat, a: Node, b: Node)
    requires i < |s|
    ensures s[i := a][i] == a && s[i := a][i := b] == s[i := b]
  {
  }

  lemma InsideStep(n: Node, child: Node, path: Path, i: byte, info: StemInfo, comms: seq<Point>, values: Values)
    requires Wide(n) && Wide(child) && |path| > 1 && path[0] == i
    ensures var inner := CreatePath(child, path[1..], info, comms, values);
            CreatePath(n.(children := n.children[i := child]), path, info, comms, values)
            == if inner.Err? then inner else Ok(Built(n.(children := n.children[i := inner.value.node]), inner.value.comms))
  {
    var inner := CreatePath(child, path[1..], info, comms, values);
    UpdateTwice(n.children, i, child, if inner.Ok? then inner.value.node else child);
  }

  /** The first path into an unknown child makes it, out of the next commitment. */
  lemma CreateFirst(n: Node, path: Path, i: byte, es: seq<Entry>, comms: seq<Point>, ks: Keys, pre: seq<Value>)
    requires Wide(n) && n.children[i] == Unknown && |ks| == |pre| && LeadBelow(es, path + [i], true) && es != [] && comms != []
    ensures LeadBelow(es, path, true)
    ensures CreateAll(n, |path|, es, comms, ks, pre)
         == CreateAll(n.(children := n.children[i := Fresh(comms[0])]), |path|, es, comms[1..], ks, pre)
  {
    LeadStep(es, path, i);
    var first, rest := es[..1], es[1..];
    assert es == first + rest && forall e :: e in first ==> e in es;
    var m := n.(children := n.children[i := Fresh(comms[0])]);
    CreateAllConcat(n, |path|, first, rest, comms, ks, pre);
    CreateAllConcat(m, |path|, first, rest, comms[1..], ks, pre);
    var e := es[0];
    assert e in es;
    FirstStep(n, e.path[|path|..], i, e.info, comms, SlotValues(ks, pre, e.info.stem));
    assert first[..0] == [] && first[0] == e;
    assert CreateAll(n, |path|, first[..0], comms, ks, pre) == Ok(Built(n, comms));
    assert CreateAll(m, |path|, first[..0], comms[1..], ks, pre) == Ok(Built(m, comms[1..]));
  }

  lemma FirstStep(n: Node, path: Path, i: byte, info: StemInfo, comms: seq<Point>, values: Values)
    requires Wide(n) && n.children[i] == Unknown && comms != [] && |path| > 1 && path[0] == i
    ensures CreatePath(n, path, info, comms, values)
         == CreatePath(n.(children := n.children[i := Fresh(comms[0])]), path, info, comms[1..], values)
  {
    InsideStep(n, Fresh(comms[0]), path, i, info, comms[1..], values);
  }

  // ----- The partial tree, child by child --------------------------------

  /** The partial tree with the children from `i` on still unknown. */
  function PartialUpTo(n: Node, path: Path, ks: Keys, i: nat): (r: Node)
    requires Wide(n) && i <= NODE_WIDTH
    ensures Wide(r) && r.comm == n.comm
  {
    Internal(seq(NODE_WIDTH, j requires 0 <= j < NODE_WIDTH =>
      if j < i && Touched(ks, path + [j]) then Partial(n.children[j], path + [j], ks) else Unknown), n.comm)
  }

  lemma PartialUpToStep(n: Node, path: Path, ks: Keys, i: byte)
    requires Wide(n)
    ensures PartialUpTo(n, path, ks, 0) == Fresh(n.comm) && PartialUpTo(n, path, ks, NODE_WIDTH) == Partial(n, path, ks)
    ensures PartialUpTo(n, path, ks, i).children[i] == Unknown
    ensures var q := path + [i];
            PartialUpTo(n, path, ks, i + 1).children
            == PartialUpTo(n, path, ks, i).children[i := if Touched(ks, q) then Partial(n.children[i], q, ks) else Unknown]
  {
  }

  /** The pre-values are the values read in the tree, below `path`. */
  ghost predicate Agrees(n: Node, path: Path, ks: Keys, pre: seq<Value>) {
    |ks| == |pre| && forall j :: 0 <= j < |ks| && HasPrefix(ks[j], path) ==> ReadAt(n, |path|, ks[j]) == Answer(pre[j])
  }

  lemma AgreesBelow(n: Node, path: Path, ks: Keys, pre: seq<Value>, i: byte)
    requires n.Internal? && Placed(n, path) && Agrees(n, path, ks, pre)
    ensures Agrees(n.children[i], path + [i], ks, pre)
  {
    forall j | 0 <= j < |ks| && HasPrefix(ks[j], path + [i])
      ensures ReadAt(n.children[i], |path| + 1, ks[j]) == Answer(pre[j])
    {
      KeyStep(ks[j], path, i);
    }
  }

  lemma AgreesAtLeaf(n: Node, path: Path, ks: Keys, pre: seq<Value>)
    requires n.Leaf? && Placed(n, path) && Agrees(n, path, ks, pre)
    ensures ReadOff(ks, pre, n.stem, n.values)
  {
    forall j | 0 <= j < |ks| && KeyToStem(ks[j]) == n.stem ensures pre[j] == n.values[Suffix(ks[j])] {
      assert ks[j][..|path|] == n.stem[..|path|];
    }
  }

  /** A leaf takes its commitments off the front and comes out as the partial tree has it. */
  lemma BuildLeaf(n: Node, path: Path, ks: Keys, pre: seq<Value>, rest: seq<Point>)
    requires n.Leaf? && Placed(n, path) && Agrees(n, path, ks, pre)
    ensures var e := Entries(n, path, ks, pre)[0];
            CreateChild(e.info, Points(PathComms(n, path, ks)) + rest, SlotValues(ks, pre, e.info.stem))
            == Ok(Built(Partial(n, path, ks), rest))
  {
    hide SlotValues, AskedValues, Override, Shown, Requested, RequestedHalf, CreateChild, Points;
    LeafPoints(n, path, ks);
    if Requested(ks, n.stem) {
      AgreesAtLeaf(n, path, ks, pre);
      ShownAgain(ks, pre, n.stem, n.values);
      CreateLeaf(Present(ks, pre, n.stem), n.comm, n.c1, n.c2, SlotValues(ks, pre, n.stem), rest);
    } else {
      HalvesNotRequested(ks, n.stem);
      CreateStub(n.stem, n.comm, SlotValues(ks, pre, n.stem), rest);
    }
  }

  lemma LeafPoints(n: Node, path: Path, ks: Keys)
    requires n.Leaf? && Placed(n, path)
    ensures Points(PathComms(n, path, ks))
         == [n.comm] + (if RequestedHalf(ks, n.stem, 0) then [n.c1] else []) + (if RequestedHalf(ks, n.stem, 128) then [n.c2] else [])
  {
  }

  lemma HalvesNotRequested(ks: Keys, stem: Stem)
    requires !Requested(ks, stem)
    ensures !RequestedHalf(ks, stem, 0) && !RequestedHalf(ks, stem, 128)
  {
  }

  lemma CreateLeaf(info: StemInfo, comm: Point, c1: Point, c2: Point, values: Values, rest: seq<Point>)
    requires info.status == EXT_PRESENT && |info.stem| == STEM_SIZE
    ensures var comms := [comm] + (if info.hasC1 then [c1] else []) + (if info.hasC2 then [c2] else []) + rest;
            CreateChild(info, comms, values)
            == Ok(Built(Leaf(info.stem, Override(values, info.values), comm,
                             if info.hasC1 then c1 else IDENTITY, if info.hasC2 then c2 else IDENTITY), rest))
  {
    hide Override;
    var t1, t2 := if info.hasC1 then [c1] else [], if info.hasC2 then [c2] else [];
    var comms := [comm] + t1 + t2 + rest;
    assert comms[1..] == t1 + (t2 + rest);
    TakeOne(info.hasC1, c1, t2 + rest);
    TakeOne(info.hasC2, c2, rest);
  }

  lemma CreateStub(stem: Stem, comm: Point, values: Values, rest: seq<Point>)
    ensures CreateChild(AbsentOther(stem), [comm] + [] + [] + rest, values) == Ok(Built(Stub(stem, comm), rest))
  {
    assert ([comm] + [] + [] + rest)[1..] == rest;
  }

  lemma TakeOne(has: bool, c: Point, rest: seq<Point>)
    ensures TakeHalf(has, (if has then [c] else []) + rest) == Ok((if has then c else IDENTITY, rest))
  {
    assert ([c] + rest)[1..] == rest;
    assert [] + rest == rest;
  }

  /** One child: its entries put the partial child into the slot and consume its commitments. */
  lemma {:induction false} BuildChild(m: Node, n: Node, path: Path, i: byte, ks: Keys, pre: seq<Value>, rest: seq<Point>)
    requires Wide(m) && m.children[i] == Unknown
    requires |path| < STEM_SIZE && Placed(n, path + [i]) && Full(n) && Touched(ks, path + [i]) && Agrees(n, path + [i], ks, pre)
    ensures LeadBelow(Entries(n, path + [i], ks, pre), path, true)
    ensures var q := path + [i];
            CreateAll(m, |path|, Entries(n, q, ks, pre), Points(PathComms(n, q, ks)) + rest, ks, pre)
            == Ok(Built(m.(children := m.children[i := Partial(n, q, ks)]), rest))
    decreases n, NODE_WIDTH + 2
  {
    assert |ks| == |pre|;
    hide SlotValues, Shown, Requested, RequestedHalf, Touched, Stems, Under, Agrees, ReadAt;
    var q := path + [i];
    EntriesLeadBelow(n, q, ks, pre);
    LeadStep(Entries(n, q, ks, pre), path, i);
    match n
    case Empty =>
      var m' := m.(children := m.children[i := Empty]);
      SomeStem(ks, q);
      BuildEmpty(m, path, i, |Stems(Under(ks, q))|, rest, ks, pre);
      assert Points(PathComms(n, q, ks)) + rest == rest;
    case Leaf(_, _, _, _, _) =>
      BuildLeaf(n, q, ks, pre, rest);
      var e := Entries(n, q, ks, pre)[0];
      assert Entries(n, q, ks, pre)[..0] == [] && e.path[|path|..] == [i];
    case Internal(_, comm) =>
      var es, below := Entries(n, q, ks, pre), Points(CommsBelow(n, q, ks, NODE_WIDTH)) + rest;
      EntriesNotEmpty(n, q, ks, pre);
      assert Points(PathComms(n, q, ks)) + rest == [comm] + below;
      assert ([comm] + below)[1..] == below;
      CreateFirst(m, path, i, es, [comm] + below, ks, pre);
      var m' := m.(children := m.children[i := Fresh(comm)]);
      CreateInside(m', path, i, es, below, ks, pre);
      BuildNode(n, q, ks, pre, rest);
      assert m'.children[i := Partial(n, q, ks)] == m.children[i := Partial(n, q, ks)];
  }

  lemma SomeStem(ks: Keys, path: Path)
    requires Touched(ks, path)
    ensures Under(ks, path) != [] && Stems(Under(ks, path)) != []
  {
    var k :| k in ks && HasPrefix(k, path);
    assert k in Under(ks, path);
  }

  /** An absent child is set to Empty once for each stem that ends there. */
  lemma {:induction false} BuildEmpty(m: Node, path: Path, i: byte, count: nat, comms: seq<Point>, ks: Keys, pre: seq<Value>)
    requires Wide(m) && |ks| == |pre| && count > 0
    ensures CreateAll(m, |path|, Repeat(Entry(path + [i], AbsentEmpty()), count), comms, ks, pre)
         == Ok(Built(m.(children := m.children[i := Empty]), comms))
  {
    var es := Repeat(Entry(path + [i], AbsentEmpty()), count);
    var init := Repeat(Entry(path + [i], AbsentEmpty()), count - 1);
    assert es[..count - 1] == init && es[count - 1] == Entry(path + [i], AbsentEmpty());
    assert (path + [i])[|path|..] == [i];
    if count == 1 {
      assert init == [];
    } else {
      BuildEmpty(m, path, i, count - 1, comms, ks, pre);
      assert m.children[i := Empty][i := Empty] == m.children[i := Empty];
    }
  }

  lemma {:induction false} EntriesNotEmpty(n: Node, path: Path, ks: Keys, pre: seq<Value>)
    requires Placed(n, path) && Full(n) && |ks| == |pre| && Touched(ks, path)
    ensures Entries(n, path, ks, pre) != []
    decreases n
  {
    match n
    case Empty => SomeStem(ks, path);
    case Leaf(_, _, _, _, _) =>
    case Internal(children, _) =>
      var k :| k in ks && HasPrefix(k, path);
      var i := k[|path|];
      KeyStep(k, path, i);
      EntriesNotEmpty(children[i], path + [i], ks, pre);
      EntriesBelowGrow(n, path, ks, pre, i + 1, NODE_WIDTH);
  }

  lemma {:induction false} EntriesBelowGrow(n: Node, path: Path, ks: Keys, pre: seq<Value>, i: nat, j: nat)
    requires n.Internal? && Placed(n, path) && |ks| == |pre| && i <= j <= NODE_WIDTH
    ensures |EntriesBelow(n, path, ks, pre, i)| <= |EntriesBelow(n, path, ks, pre, j)|
    decreases j
  {
    if i < j {
      EntriesBelowGrow(n, path, ks, pre, i, j - 1);
    }
  }

  /** An internal node made from its commitment and filled by the entries below it is the partial
      node, and exactly its commitments are used. */
  lemma {:induction false} BuildNode(n: Node, path: Path, ks: Keys, pre: seq<Value>, rest: seq<Point>)
    requires n.Internal? && Placed(n, path) && Full(n) && Agrees(n, path, ks, pre)
    ensures LeadBelow(Entries(n, path, ks, pre), path, true)
    ensures CreateAll(Fresh(n.comm), |path|, Entries(n, path, ks, pre), Points(CommsBelow(n, path, ks, NODE_WIDTH)) + rest, ks, pre)
         == Ok(Built(Partial(n, path, ks), rest))
    decreases n, NODE_WIDTH + 1
  {
    BuildBelow(n, path, ks, pre, NODE_WIDTH, rest);
    PartialUpToStep(n, path, ks, 0);
  }

  lemma {:induction false} BuildBelow(n: Node, path: Path, ks: Keys, pre: seq<Value>, i: nat, rest: seq<Point>)
    requires n.Internal? && Placed(n, path) && Full(n) && Agrees(n, path, ks, pre) && i <= NODE_WIDTH
    ensures LeadBelow(EntriesBelow(n, path, ks, pre, i), path, true)
    ensures CreateAll(Fresh(n.comm), |path|, EntriesBelow(n, path, ks, pre, i), Points(CommsBelow(n, path, ks, i)) + rest, ks, pre)
         == Ok(Built(PartialUpTo(n, path, ks, i), rest))
    decreases n, i
  {
    EntriesBelowLeadBelow(n, path, ks, pre, i);
    if i == 0 {
      PartialUpToStep(n, path, ks, 0);
      assert Points(CommsBelow(n, path, ks, 0)) + rest == rest;
    } else {
      hide PathComms, Entries, Partial, PartialUpTo, Touched, Points, CreateAll;
      var j: byte := i - 1;
      var q, c, m := path + [j], n.children[j], PartialUpTo(n, path, ks, j);
      PartialUpToStep(n, path, ks, j);
      EntriesBelowLeadBelow(n, path, ks, pre, j);
      if Touched(ks, q) {
        var here, es := Points(PathComms(c, q, ks)), Entries(c, q, ks, pre);
        BuildBelow(n, path, ks, pre, j, here + rest);
        AgreesBelow(n, path, ks, pre, j);
        BuildChild(m, c, path, j, ks, pre, rest);
        CreateAllConcat(Fresh(n.comm), |path|, EntriesBelow(n, path, ks, pre, j), es,
          Points(CommsBelow(n, path, ks, j)) + (here + rest), ks, pre);
        PathsConcat(CommsBelow(n, path, ks, j), PathComms(c, q, ks));
        Associate(Points(CommsBelow(n, path, ks, j)), here, rest);
        SameNode(m, PartialUpTo(n, path, ks, i), j, Partial(c, q, ks));
      } else {
        BuildBelow(n, path, ks, pre, j, rest);
        assert EntriesBelow(n, path, ks, pre, i) == EntriesBelow(n, path, ks, pre, j);
        assert CommsBelow(n, path, ks, i) == CommsBelow(n, path, ks, j);
        SameNode(m, PartialUpTo(n, path, ks, i), j, Unknown);
        assert m.children[j := Unknown] == m.children;
      }
    }
  }

  lemma Associate(a: seq<Point>, b: seq<Point>, c: seq<Point>)
    ensures (a + b) + c == a + (b + c)
  {
  }

  lemma SameNode(m: Node, r: Node, j: byte, x: Node)
    requires Wide(m) && Wide(r) && r.comm == m.comm && r.children == m.children[j := x]
    ensures r == m.(children := m.children[j := x])
  {
  }
}
