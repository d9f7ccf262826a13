/** PreStateTreeFromProof: a partial tree rebuilt from the statuses, stems, commitments and values
    of a proof. */
module Rebuild {
  import opened Pedersen
  import opened VerkleTypes
  import opened ByteOrder
  import opened Multiproof
  import opened Stateless
  import opened ProofPlan

  datatype RebuildError =
    | CountMismatch
    | UnsortedAbsenceStems
    | AbsentStemHasValue
    | InvalidStatus
    | NoAbsenceStemLeft
    | UnusedAbsenceStems
    | InvalidPath
    | MissingCommitment
    | InvalidStemSize
    | LeafOnPath
    | UnsupportedNode

  datatype Result<T> = Ok(value: T) | Err(error: RebuildError)

  /** What a path leads to, as far as the proof tells. */
  datatype StemInfo = StemInfo(status: nat, stem: seq<byte>, hasC1: bool, hasC2: bool, values: map<byte, Value>)

  datatype Proof = Proof(
    extStatus: seq<byte>,
    cs: seq<Point>,
    poaStems: seq<Stem>,
    keys: Keys,
    preValues: seq<Value>,
    postValues: seq<Value>)

  // ----- CreatePath ------------------------------------------------------

  datatype Built = Built(node: Node, comms: seq<Point>)

  /** NewStatelessInternal: every child unknown. */
  function Fresh(comm: Point): (n: Node)
    ensures n.Internal? && |n.children| == NODE_WIDTH
  {
    Internal(seq(NODE_WIDTH, _ => Unknown), comm)
  }

  /** The leaf made from the values read for its stem. */
  function Override(values: Values, over: map<byte, Value>): (r: Values)
    ensures forall b: byte :: r[b] == if b in over then over[b] else values[b]
  {
    seq(NODE_WIDTH, b requires 0 <= b < NODE_WIDTH => if b in over then over[b] else values[b])
  }

  /** The commitment of a half: the next unused one, or none when the half was not opened. */
  function TakeHalf(has: bool, comms: seq<Point>): Result<(Point, seq<Point>)> {
    if !has then Ok((IDENTITY, comms))
    else if comms == [] then Err(MissingCommitment)
    else Ok((comms[0], comms[1..]))
  }

  /** The last step of a path: the slot gets its occupant. */
  function CreateChild(info: StemInfo, comms: seq<Point>, values: Values): Result<Built> {
    if info.status == EXT_ABSENT_EMPTY then Ok(Built(Empty, comms))
    else if info.status != EXT_ABSENT_OTHER && info.status != EXT_PRESENT then Err(InvalidStatus)
    else if comms == [] then Err(MissingCommitment)
    else if |info.stem| != STEM_SIZE then Err(InvalidStemSize)
    else if info.status == EXT_ABSENT_OTHER then Ok(Built(Stub(info.stem, comms[0]), comms[1..]))
    else
      match TakeHalf(info.hasC1, comms[1..])
      case Err(e) => Err(e)
      case Ok(h1) =>
        match TakeHalf(info.hasC2, h1.1)
        case Err(e) => Err(e)
        case Ok(h2) => Ok(Built(Leaf(info.stem, Override(values, info.values), comms[0], h1.0, h2.0), h2.1))
  }

  predicate Wide(n: Node) {
    n.Internal? && |n.children| == NODE_WIDTH
  }

  /** CreatePath: walks down, making unknown nodes on the way out of the next commitments. */
  function CreatePath(n: Node, path: Path, info: StemInfo, comms: seq<Point>, values: Values): (r: Result<Built>)
    requires Wide(n)
    ensures r.Ok? ==> Wide(r.value.node)
    decreases |path|
  {
    if path == [] then Err(InvalidPath)
    else if |path| == 1 then
      match CreateChild(info, comms, values)
      case Err(e) => Err(e)
      case Ok(b) => Ok(Built(n.(children := n.children[path[0] := b.node]), b.comms))
    else
      match n.children[path[0]]
      case Unknown =>
        if comms == [] then Err(MissingCommitment)
        else Descend(n, path, info, Fresh(comms[0]), comms[1..], values)
      case Internal(grandchildren, _) =>
        if |grandchildren| == NODE_WIDTH then Descend(n, path, info, n.children[path[0]], comms, values) else Err(UnsupportedNode)
      case Leaf(_, _, _, _, _) => Err(LeafOnPath)
      case Stub(_, _) => Err(LeafOnPath)
      case Empty => Err(UnsupportedNode)
  }

  function Descend(n: Node, path: Path, info: StemInfo, child: Node, comms: seq<Point>, values: Values): (r: Result<Built>)
    requires Wide(n) && Wide(child) && |path| > 1
    ensures r.Ok? ==> Wide(r.value.node)
    decreases |path|, 0
  {
    match CreatePath(child, path[1..], info, comms, values)
    case Err(e) => Err(e)
    case Ok(b) => Ok(Built(n.(children := n.children[path[0] := b.node]), b.comms))
  }

  /** The node at a path; unknown where the tree says nothing. */
  function At(n: Node, path: Path): Node
    decreases |path|
  {
    if path == [] then n
    else if Wide(n) then At(n.children[path[0]], path[1..])
    else Unknown
  }

  /** How many nodes on the way to the last one are missing. */
  function MissingOnWay(n: Node, path: Path): (k: nat)
    requires Wide(n)
    ensures k <= |path|
    decreases |path|
  {
    if |path| <= 1 then 0
    else if n.children[path[0]].Unknown? then |path| - 1
    else if Wide(n.children[path[0]]) then MissingOnWay(n.children[path[0]], path[1..])
    else 0
  }

  lemma {:induction false} FreshMissesAll(comm: Point, path: Path)
    ensures MissingOnWay(Fresh(comm), path) == if |path| <= 1 then 0 else |path| - 1
    ensures path != [] ==> At(Fresh(comm), path) == Unknown
  {
    if path != [] {
      UnknownBelow(path[1..]);
    }
  }

  lemma UnknownBelow(path: Path)
    ensures At(Unknown, path) == Unknown
  {
  }

  /** Where a call puts its occupant, and what it takes: one commitment for each node missing on the way,
      then those of the occupant. */
  lemma {:induction false} CreatePathPlaces(n: Node, path: Path, info: StemInfo, comms: seq<Point>, values: Values)
    requires Wide(n)
    ensures var r, k := CreatePath(n, path, info, comms, values), MissingOnWay(n, path);
            r.Ok? ==>
              && path != [] && k <= |comms| && CreateChild(info, comms[k..], values).Ok?
              && CreateChild(info, comms[k..], values).value == Built(At(r.value.node, path), r.value.comms)
    decreases |path|
  {
    if |path| == 1 {
      assert comms[0..] == comms && path[1..] == [];
    } else if |path| > 1 {
      var c := n.children[path[0]];
      if c.Unknown? && comms != [] {
        CreatePathPlaces(Fresh(comms[0]), path[1..], info, comms[1..], values);
        FreshMissesAll(comms[0], path[1..]);
        if |comms| >= |path| - 1 {
          assert comms[1..][|path| - 2..] == comms[|path| - 1..];
        }
      } else if Wide(c) {
        CreatePathPlaces(c, path[1..], info, comms, values);
      }
    }
  }

  /** The nodes on the way: those that were there keep their commitments, the missing ones get the next
      commitments in order. */
  lemma {:induction false} CreatePathOnWay(n: Node, path: Path, info: StemInfo, comms: seq<Point>, values: Values, j: nat)
    requires Wide(n) && j < |path|
    ensures var r, k := CreatePath(n, path, info, comms, values), MissingOnWay(n, path);
            r.Ok? ==>
              && k <= |comms| && Wide(At(r.value.node, path[..j]))
              && At(r.value.node, path[..j]).comm
                 == if j >= |path| - k then comms[j - (|path| - k)] else Comm(At(n, path[..j]))
    decreases |path|
  {
    CreatePathPlaces(n, path, info, comms, values);
    if j == 0 {
      assert path[..0] == [];
    } else {
      var c := n.children[path[0]];
      assert path[..j][0] == path[0] && path[..j][1..] == path[1..][..j - 1];
      if c.Unknown? && comms != [] {
        CreatePathOnWay(Fresh(comms[0]), path[1..], info, comms[1..], values, j - 1);
        FreshMissesAll(comms[0], path[1..]);
        assert path[1..][..0] == [];
      } else if Wide(c) {
        CreatePathOnWay(c, path[1..], info, comms, values, j - 1);
      }
    }
  }

  /** Everything off the way stays as it was. */
  lemma {:induction false} CreatePathKeeps(n: Node, path: Path, info: StemInfo, comms: seq<Point>, values: Values, q: Path)
    requires Wide(n) && !(q <= path) && !(path <= q)
    ensures var r := CreatePath(n, path, info, comms, values); r.Ok? ==> At(r.value.node, q) == At(n, q)
    decreases |path|
  {
    var r := CreatePath(n, path, info, comms, values);
    if r.Ok? && |path| > 1 && q[0] == path[0] {
      var c := n.children[path[0]];
      assert !(q[1..] <= path[1..]) && !(path[1..] <= q[1..]);
      if c.Unknown? {
        CreatePathKeeps(Fresh(comms[0]), path[1..], info, comms[1..], values, q[1..]);
        FreshMissesAll(comms[0], q[1..]);
        UnknownBelow(q[1..]);
      } else {
        CreatePathKeeps(c, path[1..], info, comms, values, q[1..]);
      }
    }
  }

  // ----- Values by key ---------------------------------------------------

  /** The pre-values of a stem's keys, by suffix. */
  function AskedValues(ks: Keys, pre: seq<Value>, stem: seq<byte>): map<byte, Value>
    requires |ks| == |pre|
  {
    if ks == [] then map[]
    else
      var n := |ks| - 1;
      var before := AskedValues(ks[..n], pre[..n], stem);
      if KeyToStem(ks[n]) == stem then before[Suffix(ks[n]) := pre[n]] else before
  }

  /** The values slice of a stem: its non-empty pre-values. */
  function SlotValues(ks: Keys, pre: seq<Value>, stem: seq<byte>): Values
    requires |ks| == |pre|
  {
    if ks == [] then EmptyValues()
    else
      var n := |ks| - 1;
      var before := SlotValues(ks[..n], pre[..n], stem);
      if pre[n].Len() != 0 && KeyToStem(ks[n]) == stem then before[Suffix(ks[n]) := pre[n]] else before
  }

  /** The pre-values are what a leaf shows. */
  ghost predicate ReadOff(ks: Keys, pre: seq<Value>, stem: Stem, values: Values) {
    |ks| == |pre| && forall j :: 0 <= j < |ks| && KeyToStem(ks[j]) == stem ==> pre[j] == values[Suffix(ks[j])]
  }

  lemma {:induction false} AskedValuesShown(ks: Keys, pre: seq<Value>, stem: Stem, values: Values)
    requires ReadOff(ks, pre, stem, values)
    ensures forall b: byte :: b in AskedValues(ks, pre, stem) <==> MakeKey(stem, b) in ks
    ensures forall b: byte :: b in AskedValues(ks, pre, stem) ==> AskedValues(ks, pre, stem)[b] == values[b]
    ensures forall b: byte :: MakeKey(stem, b) !in ks ==> SlotValues(ks, pre, stem)[b] == Nil
  {
    if ks != [] {
      var n := |ks| - 1;
      AskedValuesShown(ks[..n], pre[..n], stem, values);
      assert ks == ks[..n] + [ks[n]];
      forall b: byte ensures KeyToStem(ks[n]) == stem && Suffix(ks[n]) == b <==> ks[n] == MakeKey(stem, b) {
        assert ks[n] == MakeKey(KeyToStem(ks[n]), Suffix(ks[n]));
      }
    }
  }

  lemma ShownAgain(ks: Keys, pre: seq<Value>, stem: Stem, values: Values)
    requires ReadOff(ks, pre, stem, values)
    ensures Override(SlotValues(ks, pre, stem), AskedValues(ks, pre, stem)) == Shown(stem, values, ks)
  {
    AskedValuesShown(ks, pre, stem, values);
    var x, y := Override(SlotValues(ks, pre, stem), AskedValues(ks, pre, stem)), Shown(stem, values, ks);
    hide SlotValues, AskedValues;
    forall b | 0 <= b < NODE_WIDTH ensures x[b] == y[b] {
      assert MakeKey(stem, b) in ks <==> b in AskedValues(ks, pre, stem);
    }
  }

  // ----- Assigning a stem to each path ------------------------------------

  function AbsentEmpty(): StemInfo {
    StemInfo(EXT_ABSENT_EMPTY, [], false, false, map[])
  }

  function AbsentOther(stem: Stem): StemInfo {
    StemInfo(EXT_ABSENT_OTHER, stem, false, false, map[])
  }

  function Present(ks: Keys, pre: seq<Value>, stem: Stem): StemInfo
    requires |ks| == |pre|
  {
    StemInfo(EXT_PRESENT, stem, RequestedHalf(ks, stem, 0), RequestedHalf(ks, stem, 128), AskedValues(ks, pre, stem))
  }

  /** The state of the loop over the statuses. */
  datatype Plan = Plan(info: map<Path, StemInfo>, paths: seq<Path>, poas: seq<Stem>)

  ghost predicate Consistent(p: Plan) {
    forall q :: q in p.paths ==> q in p.info
  }

  predicate HasValue(ks: Keys, pre: seq<Value>, stem: Stem)
    requires |ks| == |pre|
  {
    exists j :: 0 <= j < |ks| && HasPrefix(ks[j], stem) && pre[j] != Nil
  }

  /** One turn of that loop. */
  function Assign(p: Plan, stem: Stem, es: byte, present: set<Path>, ks: Keys, pre: seq<Value>): (r: Result<Plan>)
    requires |ks| == |pre| && Consistent(p)
    ensures r.Ok? ==> Consistent(r.value)
  {
    var path := stem[..DepthOf(es)];
    var status := StatusOf(es);
    if status == EXT_ABSENT_EMPTY then
      if HasValue(ks, pre, stem) then Err(AbsentStemHasValue)
      else Ok(p.(info := p.info[path := AbsentEmpty()], paths := p.paths + [path]))
    else if status == EXT_ABSENT_OTHER then
      if HasValue(ks, pre, stem) then Err(AbsentStemHasValue)
      else if path in present || path in p.info then Ok(p)
      else if p.poas == [] then Err(NoAbsenceStemLeft)
      else Ok(Plan(p.info[path := AbsentOther(p.poas[0])], p.paths + [path], p.poas[1..]))
    else if status == EXT_PRESENT then
      Ok(p.(info := p.info[path := Present(ks, pre, stem)], paths := p.paths + [path]))
    else Err(InvalidStatus)
  }

  function AssignAll(p: Plan, stems: seq<Stem>, ess: seq<byte>, present: set<Path>, ks: Keys, pre: seq<Value>): (r: Result<Plan>)
    requires |ks| == |pre| && |stems| == |ess| && Consistent(p)
    ensures r.Ok? ==> Consistent(r.value)
  {
    if stems == [] then Ok(p)
    else
      var n := |stems| - 1;
      match AssignAll(p, stems[..n], ess[..n], present, ks, pre)
      case Err(e) => Err(e)
      case Ok(before) => Assign(before, stems[n], ess[n], present, ks, pre)
  }

  /** The paths with a presence status. */
  function PresentPaths(stems: seq<Stem>, ess: seq<byte>): (r: set<Path>)
    requires |stems| == |ess|
    ensures forall q :: q in r <==> exists i :: 0 <= i < |stems| && StatusOf(ess[i]) == EXT_PRESENT && stems[i][..DepthOf(ess[i])] == q
  {
    set i | 0 <= i < |stems| && StatusOf(ess[i]) == EXT_PRESENT :: stems[i][..DepthOf(ess[i])]
  }

  // ----- Building --------------------------------------------------------

  datatype Entry = Entry(path: Path, info: StemInfo)

  function PlanEntries(p: Plan): seq<Entry>
    requires Consistent(p)
  {
    seq(|p.paths|, j requires 0 <= j < |p.paths| => Entry(p.paths[j], p.info[p.paths[j]]))
  }

  /** The loop of CreatePath calls on a node at depth `d`, whose prefix is cut off the paths. */
  function CreateAll(n: Node, d: nat, es: seq<Entry>, comms: seq<Point>, ks: Keys, pre: seq<Value>): (r: Result<Built>)
    requires Wide(n) && |ks| == |pre|
    requires forall e :: e in es ==> d <= |e.path|
    ensures r.Ok? ==> Wide(r.value.node)
  {
    if es == [] then Ok(Built(n, comms))
    else
      var e := es[|es| - 1];
      match CreateAll(n, d, es[..|es| - 1], comms, ks, pre)
      case Err(error) => Err(error)
      case Ok(b) => CreatePath(b.node, e.path[d..], e.info, b.comms, SlotValues(ks, pre, e.info.stem))
  }

  predicate NowhereDescending(s: seq<Path>) {
    forall i :: 0 < i < |s| ==> !Less(s[i], s[i - 1])
  }

  /** The whole of PreStateTreeFromProof; the commitments left over come with the tree. */
  function TreeFromProof(proof: Proof, rootC: Point): Result<Built> {
    if |proof.keys| != |proof.preValues| || |proof.keys| != |proof.postValues| then Err(CountMismatch)
    else
      var stems := Stems(proof.keys);
      if |stems| != |proof.extStatus| then Err(CountMismatch)
      else if !NowhereDescending(proof.poaStems) then Err(UnsortedAbsenceStems)
      else
        match AssignAll(Plan(map[], [], proof.poaStems), stems, proof.extStatus,
                        PresentPaths(stems, proof.extStatus), proof.keys, proof.preValues)
        case Err(e) => Err(e)
        case Ok(plan) =>
          if plan.poas != [] then Err(UnusedAbsenceStems)
          else CreateAll(Fresh(rootC), 0, PlanEntries(plan), proof.cs, proof.keys, proof.preValues)
  }

  // ----- What a proof must be to be accepted ---------------------------------

  /** A status that says absent goes with keys without values. */
  ghost predicate StatusFits(stem: Stem, es: byte, ks: Keys, pre: seq<Value>)
    requires |ks| == |pre|
  {
    es % 4 <= 2 && (es % 4 != 2 ==> forall j :: 0 <= j < |ks| && ks[j][..31] == stem ==> pre[j] == Nil)
  }

  lemma {:induction false} AssignedStatusesFit(p: Plan, stems: seq<Stem>, ess: seq<byte>, present: set<Path>, ks: Keys, pre: seq<Value>)
    requires |ks| == |pre| && |stems| == |ess| && Consistent(p)
    ensures AssignAll(p, stems, ess, present, ks, pre).Ok? ==> forall j :: 0 <= j < |stems| ==> StatusFits(stems[j], ess[j], ks, pre)
  {
    if stems != [] {
      var n := |stems| - 1;
      AssignedStatusesFit(p, stems[..n], ess[..n], present, ks, pre);
      if AssignAll(p, stems, ess, present, ks, pre).Ok? {
        LastStatusFits(AssignAll(p, stems[..n], ess[..n], present, ks, pre).value, stems[n], ess[n], present, ks, pre);
      }
      hide StatusFits, Assign;
    }
  }

  lemma LastStatusFits(p: Plan, stem: Stem, es: byte, present: set<Path>, ks: Keys, pre: seq<Value>)
    requires |ks| == |pre| && Consistent(p) && Assign(p, stem, es, present, ks, pre).Ok?
    ensures StatusFits(stem, es, ks, pre)
  {
    forall j | es % 4 != 2 && 0 <= j < |ks| && ks[j][..31] == stem ensures pre[j] == Nil {
      assert HasPrefix(ks[j], stem);
    }
  }

  /** A proof from which a tree can be rebuilt has as many values as keys and as many statuses as stems, its
      absence stems do not descend, no status is unknown, and no stem that is said absent has a value. */
  lemma AcceptedProof(proof: Proof, rootC: Point)
    requires TreeFromProof(proof, rootC).Ok?
    ensures |proof.keys| == |proof.preValues| == |proof.postValues| && |Stems(proof.keys)| == |proof.extStatus|
    ensures NowhereDescending(proof.poaStems)
    ensures forall j :: 0 <= j < |proof.extStatus| ==> StatusFits(Stems(proof.keys)[j], proof.extStatus[j], proof.keys, proof.preValues)
  {
    var stems := Stems(proof.keys);
    AssignedStatusesFit(Plan(map[], [], proof.poaStems), stems, proof.extStatus, PresentPaths(stems, proof.extStatus), proof.keys, proof.preValues);
    hide StatusFits, AssignAll, CreateAll;
  }
}
