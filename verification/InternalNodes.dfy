/** Internal nodes on the heap: children, cached commitment and the copy-on-write record of
    old child commitments. */
module InternalNodes {
  import opened Pedersen
  import opened VerkleTypes
  import opened LeafNodes
  import Trie

  datatype Child =
    | EmptyChild
    | LeafChild(leaf: LeafNode)
    | InternalChild(node: InternalNode)

  ghost function ChildNodes(c: Child): set<InternalNode>
    reads (if c.InternalChild? then {c.node} else {})`nodes
  {
    if c.InternalChild? then c.node.nodes else {}
  }

  ghost function ChildLeaves(c: Child): set<LeafNode>
    reads (if c.InternalChild? then {c.node} else {})`leaves
  {
    match c
    case EmptyChild => {}
    case LeafChild(l) => {l}
    case InternalChild(n) => n.leaves
  }

  function ChildCommitment(c: Child): Point
    reads (if c.InternalChild? then {c.node} else {})`commitment
    reads (if c.LeafChild? then {c.leaf} else {})`commitment
  {
    match c
    case EmptyChild => IDENTITY
    case LeafChild(l) => l.commitment
    case InternalChild(n) => n.commitment
  }

  function NoChildren(): (r: seq<Child>)
    ensures |r| == NODE_WIDTH
    ensures forall i :: 0 <= i < NODE_WIDTH ==> r[i] == EmptyChild
  {
    seq(NODE_WIDTH, _ => EmptyChild)
  }

  class InternalNode {
    var children: seq<Child>
    var depth: nat
    var commitment: Point
    var cow: map<nat, Point>

    /** This node and every internal node below it; every leaf below it. */
    ghost var nodes: set<InternalNode>
    ghost var leaves: set<LeafNode>
    /** The subtree as a value. */
    ghost var view: Trie.Tree
    /** The polynomial `commitment` is the commitment of. */
    ghost var basis: Poly

    ghost predicate Within(c: Child)
      reads this`nodes, this`leaves
    {
      (c.InternalChild? ==> c.node in nodes) && (c.LeafChild? ==> c.leaf in leaves)
    }

    /** The slot holds what the view says, one level further down, within the footprint. */
    ghost predicate Slot(c: Child, v: Trie.Tree)
      requires this in nodes && Within(c)
      reads this`depth, this`nodes, this`leaves
      reads nodes`children, nodes`depth, nodes`nodes, nodes`leaves, nodes`view
      reads leaves`stem, leaves`values, leaves`depth
      decreases nodes, 0
    {
      match c
      case EmptyChild => v == Trie.Empty
      case LeafChild(l) => l.depth == depth + 1 && v == Trie.Leaf(l.stem, l.values)
      case InternalChild(n) =>
        && n.nodes <= nodes && n.leaves <= leaves && this !in n.nodes
        && n.depth == depth + 1 && n.Shape() && v == n.view
    }

    ghost predicate Shape()
      reads this`children, this`depth, this`nodes, this`leaves, this`view
      reads nodes`children, nodes`depth, nodes`nodes, nodes`leaves, nodes`view
      reads leaves`stem, leaves`values, leaves`depth
      decreases nodes, 1
    {
      && this in nodes
      && |children| == NODE_WIDTH && view.Node? && |view.children| == NODE_WIDTH
      && (forall i :: 0 <= i < NODE_WIDTH ==> Within(children[i]) && Slot(children[i], view.children[i]))
      && (forall i, j :: 0 <= i < j < NODE_WIDTH ==>
            ChildNodes(children[i]) !! ChildNodes(children[j]) && ChildLeaves(children[i]) !! ChildLeaves(children[j]))
    }

    /** The node's commitment is the one of the old child commitment where the record has it and
        of the current one elsewhere; a child with a record is in its parent's record. */
    ghost predicate LocallySynced()
      requires |children| == NODE_WIDTH && forall i :: 0 <= i < NODE_WIDTH ==> Within(children[i])
      reads this, nodes`commitment, nodes`cow, leaves
    {
      && |basis| == NODE_WIDTH && commitment == Commit(basis)
      && (forall i :: i in cow ==> i < NODE_WIDTH)
      && (forall i :: 0 <= i < NODE_WIDTH && Within(children[i]) ==>
            basis[i] == MapToScalarField(if i in cow then cow[i] else ChildCommitment(children[i])))
      && (forall i :: 0 <= i < NODE_WIDTH && Within(children[i]) && children[i].InternalChild? ==>
            children[i].node.cow != map[] ==> i in cow)
      && (forall i :: 0 <= i < NODE_WIDTH && Within(children[i]) && children[i].LeafChild? ==> children[i].leaf.Synced())
    }

    ghost predicate Synced()
      requires Shape()
      reads this, nodes, leaves
      decreases nodes
    {
      && LocallySynced()
      && forall i :: 0 <= i < NODE_WIDTH && children[i].InternalChild? ==>
           Slot(children[i], view.children[i]) ==> children[i].node.Synced()
    }

    ghost predicate Ready()
      reads `leaves, leaves`c1, leaves`c2
    {
      forall l :: l in leaves ==> l.Ready()
    }

    constructor (depth: nat)
      ensures Shape() && Synced() && Ready()
      ensures nodes == {this} && leaves == {} && this.depth == depth
      ensures view == Trie.New() && cow == map[] && commitment == IDENTITY
      ensures children == NoChildren()
      ensures |basis| == NODE_WIDTH && (forall i :: 0 <= i < NODE_WIDTH ==> basis[i] == 0) && Commit(basis) == IDENTITY
    {
      children := NoChildren();
      this.depth := depth;
      commitment := IDENTITY;
      cow := map[];
      nodes, leaves := {this}, {};
      view := Trie.New();
      basis := seq(NODE_WIDTH, _ => 0);
      CommitZero(seq(NODE_WIDTH, _ => 0));
    }

    /** Records the child's commitment unless an older one is already recorded. */
    method CowChild(index: nat)
      requires index < NODE_WIDTH && Shape() && Synced()
      modifies this`cow
      ensures cow == if index in old(cow) then old(cow) else old(cow)[index := ChildCommitment(children[index])]
      ensures Shape() && Synced()
    {
      assert Slot(children[index], view.children[index]);
      if index !in cow {
        cow := cow[index := ChildCommitment(children[index])];
      }
      ShapeIgnoresCow();
      SyncedWithNewRecord(index);
    }

    twostate lemma ShapeIgnoresCow()
      requires old(Shape())
      requires children == old(children) && depth == old(depth)
      requires nodes == old(nodes) && leaves == old(leaves) && view == old(view)
      requires forall o :: o in old(nodes) && o != this ==> unchanged(o)
      requires forall l :: l in old(leaves) ==> unchanged(l)
      ensures Shape()
    {
      assert this in old(nodes);
      hide Shape, Slot;
    }

    /** Only the record of this node gained the current commitment of child `index`. */
    twostate predicate OnlyRecordAdded(new index: nat)
      requires index < NODE_WIDTH && old(Shape())
      reads *
    {
      && children == old(children) && nodes == old(nodes) && leaves == old(leaves) && view == old(view)
      && depth == old(depth) && basis == old(basis) && commitment == old(commitment)
      && (forall o :: o in old(nodes) && o != this ==> unchanged(o))
      && (forall l :: l in old(leaves) ==> unchanged(l))
      && cow == if index in old(cow) then old(cow) else old(cow)[index := old(ChildCommitment(children[index]))]
    }

    twostate lemma ChildrenSyncedWithNewRecord(new index: nat)
      requires index < NODE_WIDTH && old(Shape()) && old(Synced()) && OnlyRecordAdded(index) && Shape()
      ensures forall j :: 0 <= j < NODE_WIDTH && children[j].InternalChild? ==>
                Slot(children[j], view.children[j]) ==> children[j].node.Synced()
    {
      forall j | 0 <= j < NODE_WIDTH && children[j].InternalChild? && Slot(children[j], view.children[j])
        ensures children[j].node.Synced()
      {
        var n := children[j].node;
        assert old(Slot(children[j], view.children[j]));
        n.UntouchedKeepsSynced();
      }
    }

    twostate lemma ChildUntouched(new index: nat, new j: nat)
      requires index < NODE_WIDTH && old(Shape()) && OnlyRecordAdded(index) && Shape() && j < NODE_WIDTH
      ensures Within(children[j]) && ChildCommitment(children[j]) == old(ChildCommitment(children[j]))
      ensures children[j].InternalChild? ==> children[j].node != this && children[j].node.cow == old(children[j].node.cow)
      ensures children[j].LeafChild? ==> old(children[j].leaf.Synced()) == children[j].leaf.Synced()
    {
      SlotFacts(j);
    }

    /** What LocallySynced says of one slot. */
    ghost predicate SlotSynced(j: nat)
      requires j < |children|
      reads this, nodes`commitment, nodes`cow, leaves
    {
      && Within(children[j]) && j < |basis|
      && basis[j] == MapToScalarField(if j in cow then cow[j] else ChildCommitment(children[j]))
      && (children[j].InternalChild? ==> children[j].node.cow != map[] ==> j in cow)
      && (children[j].LeafChild? ==> children[j].leaf.Synced())
    }

    lemma SlotsMakeSynced()
      requires |children| == NODE_WIDTH && |basis| == NODE_WIDTH && commitment == Commit(basis) && forall i :: i in cow ==> i < NODE_WIDTH
      requires forall j :: 0 <= j < NODE_WIDTH ==> SlotSynced(j)
      ensures (forall j :: 0 <= j < NODE_WIDTH ==> Within(children[j])) && LocallySynced()
    {
      hide Commit, LeafNode.Synced, ChildCommitment;
      assert forall j :: 0 <= j < NODE_WIDTH ==> SlotSynced(j) && Within(children[j]);
    }

    twostate lemma SlotStaysSynced(new index: nat, new j: nat)
      requires index < NODE_WIDTH && old(Shape()) && old(LocallySynced()) && OnlyRecordAdded(index) && Shape() && j < NODE_WIDTH
      ensures this in nodes && |children| == |basis| == NODE_WIDTH && SlotSynced(j)
    {
      ChildUntouched(index, j);
      assert this in old(nodes) && old(Within(children[j]));
      assert old(basis)[j] == MapToScalarField(if j in old(cow) then old(cow)[j] else old(ChildCommitment(children[j])));
      hide Commit, Shape, Slot, LeafNode.Synced;
    }

    twostate lemma LocallySyncedWithNewRecord(new index: nat)
      requires index < NODE_WIDTH && old(Shape()) && old(LocallySynced()) && OnlyRecordAdded(index) && Shape()
      ensures LocallySynced()
    {
      SlotStaysSynced(index, index);
      assert commitment == Commit(basis) && forall i :: i in cow ==> i < NODE_WIDTH;
      hide Commit, Shape, Slot, LeafNode.Synced, ChildCommitment, OnlyRecordAdded, SlotSynced, LocallySynced;
      forall j | 0 <= j < NODE_WIDTH ensures SlotSynced(j) {
        SlotStaysSynced(index, j);
      }
      SlotsMakeSynced();
    }

    twostate lemma SyncedWithNewRecord(new index: nat)
      requires index < NODE_WIDTH && old(Shape()) && old(Synced()) && OnlyRecordAdded(index) && Shape()
      ensures Synced()
    {
      ChildrenSyncedWithNewRecord(index);
      LocallySyncedWithNewRecord(index);
      hide LocallySynced, Slot;
    }

    /** Every slot but `i` is as the view says. */
    ghost predicate OtherSlots(i: nat)
      requires |children| == NODE_WIDTH && view.Node? && |view.children| == NODE_WIDTH
      requires this in nodes
      reads this`children, this`depth, this`nodes, this`leaves, this`view
      reads nodes`children, nodes`depth, nodes`nodes, nodes`leaves, nodes`view
      reads leaves`stem, leaves`values, leaves`depth
    {
      && (forall j :: 0 <= j < NODE_WIDTH && j != i ==> Within(children[j]) && Slot(children[j], view.children[j]))
      && (forall j, k :: 0 <= j < k < NODE_WIDTH && j != i && k != i ==>
            ChildNodes(children[j]) !! ChildNodes(children[k]) && ChildLeaves(children[j]) !! ChildLeaves(children[k]))
    }

    /** The occupant of slot `i` is a well-formed subtree `v` away from the other slots. */
    ghost predicate NewOccupant(i: nat, v: Trie.Tree)
      requires i < |children| == NODE_WIDTH
      reads *
    {
      && (match children[i]
          case EmptyChild => v == Trie.Empty
          case LeafChild(l) => l.depth == depth + 1 && v == Trie.Leaf(l.stem, l.values)
          case InternalChild(n) => n.depth == depth + 1 && n.Shape() && v == n.view && this !in n.nodes)
      && (forall j :: 0 <= j < NODE_WIDTH && j != i ==>
            ChildNodes(children[i]) !! ChildNodes(children[j]) && ChildLeaves(children[i]) !! ChildLeaves(children[j]))
    }

    /** No slot refers to these objects. */
    ghost predicate Dropped(dn: set<InternalNode>, dl: set<LeafNode>)
      requires |children| == NODE_WIDTH
      reads *
    {
      this !in dn && forall j :: 0 <= j < NODE_WIDTH ==> ChildNodes(children[j]) !! dn && ChildLeaves(children[j]) !! dl
    }

    /** Brings the footprint and the view up to date after slot `i` got a new occupant. */
    ghost method Refit(i: nat, v: Trie.Tree, dn: set<InternalNode>, dl: set<LeafNode>)
      requires this in nodes && i < |children| == NODE_WIDTH && view.Node? && |view.children| == NODE_WIDTH
      requires OtherSlots(i) && NewOccupant(i, v) && Dropped(dn, dl)
      modifies `nodes, `leaves, `view
      ensures Shape() && view == Trie.Node(old(view).children[i := v])
      ensures nodes == old(nodes - dn + ChildNodes(children[i])) && leaves == old(leaves - dl + ChildLeaves(children[i]))
    {
      nodes := nodes - dn + ChildNodes(children[i]);
      leaves := leaves - dl + ChildLeaves(children[i]);
      view := Trie.Node(view.children[i := v]);
      forall j | 0 <= j < NODE_WIDTH ensures Within(children[j]) && Slot(children[j], view.children[j]) {
        if j != i {
          assert old(Slot(children[j], view.children[j]));
          assert old(children[j].InternalChild? ==> children[j].node.Shape());
        }
      }
      forall j | 0 <= j < NODE_WIDTH
        ensures ChildNodes(children[j]) == old(ChildNodes(children[j]))
        ensures ChildLeaves(children[j]) == old(ChildLeaves(children[j]))
      {
        assert Slot(children[j], view.children[j]);
      }
    }

    /** Everything Synced() asks for, apart from the current occupant of slot `i`, whose old
        commitment is on record. */
    ghost predicate OtherSlotsSynced(i: nat)
      requires |children| == NODE_WIDTH && view.Node? && |view.children| == NODE_WIDTH
      requires this in nodes && OtherSlots(i)
      reads this, nodes, leaves
    {
      && |basis| == NODE_WIDTH && commitment == Commit(basis)
      && (forall j :: j in cow ==> j < NODE_WIDTH)
      && i < NODE_WIDTH && i in cow && basis[i] == MapToScalarField(cow[i])
      && (forall j :: 0 <= j < NODE_WIDTH && j != i && Within(children[j]) && Slot(children[j], view.children[j]) ==>
            && basis[j] == MapToScalarField(if j in cow then cow[j] else ChildCommitment(children[j]))
            && (children[j].InternalChild? ==>
                  children[j].node.Synced() && (children[j].node.cow != map[] ==> j in cow))
            && (children[j].LeafChild? ==> children[j].leaf.Synced()))
    }

    ghost predicate SyncedChild(c: Child)
      reads *
    {
      (c.InternalChild? ==> c.node.Shape() && c.node.Synced()) && (c.LeafChild? ==> c.leaf.Synced())
    }

    /** Slot `i` got a new occupant with view `v`; footprint and view of this node are not adjusted yet. */
    ghost predicate Pending(i: nat, v: Trie.Tree)
      reads *
    {
      && this in nodes && i < |children| == NODE_WIDTH && view.Node? && |view.children| == NODE_WIDTH
      && OtherSlots(i) && NewOccupant(i, v) && OtherSlotsSynced(i) && SyncedChild(children[i])
    }

    ghost method RefitSynced(i: nat, v: Trie.Tree, dn: set<InternalNode>, dl: set<LeafNode>)
      requires Pending(i, v) && Dropped(dn, dl)
      modifies `nodes, `leaves, `view
      ensures Shape() && view == Trie.Node(old(view).children[i := v]) && Synced()
      ensures nodes == old(nodes - dn + ChildNodes(children[i])) && leaves == old(leaves - dl + ChildLeaves(children[i]))
    {
      hide Commit, Shape, Slot, Synced, OtherSlots, OtherSlotsSynced, NewOccupant, Dropped;
      Refit(i, v, dn, dl);
      RefitKeepsSynced(i, v);
    }

    /** Only the footprint and the view of this node were brought up to date. */
    twostate predicate Refitted(new i: nat, new v: Trie.Tree)
      reads *
    {
      && old(Pending(i, v)) && Shape()
      && children == old(children) && commitment == old(commitment) && cow == old(cow) && basis == old(basis)
      && view == Trie.Node(old(view).children[i := v])
      && (forall o :: o in nodes && o != this ==> old(allocated(o)) && unchanged(o))
      && (forall l :: l in leaves ==> old(allocated(l)) && unchanged(l))
    }

    twostate lemma RefitKeepsChildren(new i: nat, new v: Trie.Tree, new j: nat)
      requires Refitted(i, v) && j < NODE_WIDTH
      ensures Within(children[j])
      ensures children[j].InternalChild? ==> children[j].node.Shape() && children[j].node.Synced()
      ensures children[j].LeafChild? ==> children[j].leaf.Synced()
      ensures basis[j] == MapToScalarField(if j in cow then cow[j] else ChildCommitment(children[j]))
      ensures children[j].InternalChild? ==> children[j].node.cow != map[] ==> j in cow
    {
      hide Commit;
      SlotFacts(j);
      assert j != i ==> old(Slot(children[j], view.children[j]));
      if children[j].InternalChild? {
        assert children[j].node in children[j].node.nodes;
      }
    }

    twostate lemma RefitKeepsSynced(new i: nat, new v: Trie.Tree)
      requires Refitted(i, v)
      ensures Synced()
    {
      hide Commit;
      forall j | 0 <= j < NODE_WIDTH
        ensures Within(children[j])
        ensures children[j].InternalChild? ==> children[j].node.Shape() && children[j].node.Synced()
        ensures children[j].LeafChild? ==> children[j].leaf.Synced()
        ensures basis[j] == MapToScalarField(if j in cow then cow[j] else ChildCommitment(children[j]))
        ensures children[j].InternalChild? ==> children[j].node.cow != map[] ==> j in cow
      {
        RefitKeepsChildren(i, v, j);
      }
      hide OtherSlots, NewOccupant, Slot;
      assert LocallySynced();
    }

    /** A well-formed, synced replacement for the subtree in slot `i`, made from the old one and
        from fresh objects, while nothing else below this node changed. */
    twostate predicate Replaced(new i: nat, new v: Trie.Tree)
      requires old(Shape()) && i < NODE_WIDTH
      reads *
    {
      && |children| == NODE_WIDTH && children == old(children)[i := children[i]]
      && depth == old(depth) && nodes == old(nodes) && leaves == old(leaves) && view == old(view)
      && basis == old(basis) && commitment == old(commitment) && cow == old(cow)
      && OthersUntouched(i)
      && (match children[i]
          case EmptyChild => v == Trie.Empty
          case LeafChild(l) => l.depth == depth + 1 && v == Trie.Leaf(l.stem, l.values)
          case InternalChild(n) => n.depth == depth + 1 && n.Shape() && v == n.view && this !in n.nodes)
      && SyncedChild(children[i])
      && fresh(ChildNodes(children[i]) - old(ChildNodes(children[i])))
      && fresh(ChildLeaves(children[i]) - old(ChildLeaves(children[i])))
    }

    /** What is not below slot `i` is as it was. */
    twostate predicate OthersUntouched(new i: nat)
      requires i < |old(children)|
      reads *
    {
      && (forall o :: o in old(nodes) && o != this && o !in old(ChildNodes(children[i])) ==> unchanged(o))
      && (forall l :: l in old(leaves) && l !in old(ChildLeaves(children[i])) ==> unchanged(l))
    }

    twostate predicate SubtreeUntouched()
      reads *
    {
      (forall o :: o in old(nodes) ==> unchanged(o)) && (forall l :: l in old(leaves) ==> unchanged(l))
    }

    twostate lemma UntouchedKeepsShape()
      requires old(Shape()) && SubtreeUntouched()
      ensures Shape()
    {
      assert this in old(nodes);
      hide Shape, Slot;
    }

    twostate lemma UntouchedKeepsSynced()
      requires old(Shape()) && old(Synced()) && SubtreeUntouched()
      ensures Shape() && Synced()
    {
      UntouchedKeepsShape();
      hide Shape, Slot, Synced, LocallySynced;
    }

    twostate predicate SlotKept(new j: nat)
      requires old(this in nodes) && j < |old(children)|
      reads *
    {
      && this in nodes && j < |children| && view.Node? && j < |view.children|
      && Within(children[j]) && Slot(children[j], view.children[j]) && SyncedChild(children[j])
      && ChildNodes(children[j]) == old(ChildNodes(children[j]))
      && ChildLeaves(children[j]) == old(ChildLeaves(children[j]))
      && ChildCommitment(children[j]) == old(ChildCommitment(children[j]))
      && (children[j].InternalChild? ==> children[j].node.cow == old(children[j].node.cow))
    }

    /** A child subtree in another slot is left alone by a replacement in slot `i`. */
    twostate lemma OtherSubtreeUntouched(new i: nat, new v: Trie.Tree, new j: nat)
      requires i < NODE_WIDTH && j < NODE_WIDTH && j != i && old(Shape()) && old(Synced()) && Replaced(i, v)
      requires old(children)[j].InternalChild?
      ensures old(children)[j].node.SubtreeUntouched()
    {
      var n := old(children)[j].node;
      assert old(Slot(children[j], view.children[j]));
      forall o | o in old(n.nodes) ensures unchanged(o) {
        assert o in old(ChildNodes(children[j])) && o !in old(ChildNodes(children[i]));
      }
      forall l | l in old(n.leaves) ensures unchanged(l) {
        assert l in old(ChildLeaves(children[j])) && l !in old(ChildLeaves(children[i]));
      }
    }

    twostate lemma UntouchedSlotKept(new j: nat)
      requires this in nodes && nodes == old(nodes) && leaves == old(leaves) && depth == old(depth)
      requires j < |children| && j < |old(children)| && children[j] == old(children)[j]
      requires view == old(view) && view.Node? && j < |view.children|
      requires old(Within(children[j]) && Slot(children[j], view.children[j]) && SyncedChild(children[j]))
      requires children[j].LeafChild? ==> unchanged(children[j].leaf)
      requires children[j].InternalChild? ==> children[j].node.SubtreeUntouched()
      ensures SlotKept(j)
    {
      if children[j].InternalChild? {
        var n := children[j].node;
        n.UntouchedKeepsSynced();
        assert n in n.nodes;
      }
    }

    /** The occupant of another slot is left alone by a replacement in slot `i`. */
    twostate lemma OtherSlotKept(new i: nat, new v: Trie.Tree, new j: nat)
      requires i < NODE_WIDTH && j < NODE_WIDTH && j != i && old(Shape()) && old(Synced()) && Replaced(i, v)
      ensures SlotKept(j)
    {
      var c := old(children)[j];
      assert old(Slot(children[j], view.children[j]));
      assert old(SyncedChild(children[j]));
      if c.LeafChild? {
        assert c.leaf in old(ChildLeaves(c)) && c.leaf !in old(ChildLeaves(children[i]));
      }
      if c.InternalChild? {
        OtherSubtreeUntouched(i, v, j);
      }
      UntouchedSlotKept(j);
    }

    twostate lemma ReplacedOtherSlots(new i: nat, new v: Trie.Tree)
      requires i < NODE_WIDTH && old(Shape()) && old(Synced()) && Replaced(i, v)
      ensures OtherSlots(i)
    {
      forall j | 0 <= j < NODE_WIDTH && j != i ensures Within(children[j]) && Slot(children[j], view.children[j]) {
        OtherSlotKept(i, v, j);
      }
      forall j, k | 0 <= j < k < NODE_WIDTH && j != i && k != i
        ensures ChildNodes(children[j]) !! ChildNodes(children[k]) && ChildLeaves(children[j]) !! ChildLeaves(children[k])
      {
        OtherSlotKept(i, v, j);
        OtherSlotKept(i, v, k);
      }
    }

    twostate lemma ReplacedOccupant(new i: nat, new v: Trie.Tree)
      requires i < NODE_WIDTH && old(Shape()) && old(Synced()) && Replaced(i, v)
      ensures NewOccupant(i, v)
    {
      forall j | 0 <= j < NODE_WIDTH && j != i
        ensures ChildNodes(children[i]) !! ChildNodes(children[j]) && ChildLeaves(children[i]) !! ChildLeaves(children[j])
      {
        OtherSlotKept(i, v, j);
      }
    }

    twostate lemma ReplacedOtherSlotsSynced(new i: nat, new v: Trie.Tree)
      requires i < NODE_WIDTH && old(Shape()) && old(Synced()) && i in old(cow) && Replaced(i, v) && OtherSlots(i)
      ensures OtherSlotsSynced(i)
    {
      hide Commit;
      forall j | 0 <= j < NODE_WIDTH && j != i
        ensures ChildCommitment(children[j]) == old(ChildCommitment(children[j]))
      {
        OtherSlotKept(i, v, j);
      }
      forall j | 0 <= j < NODE_WIDTH && j != i && children[j].InternalChild?
        ensures Slot(children[j], view.children[j]) && children[j].node.Synced()
        ensures children[j].node.cow == old(children[j].node.cow)
      {
        OtherSlotKept(i, v, j);
      }
      forall j | 0 <= j < NODE_WIDTH && j != i && children[j].LeafChild?
        ensures children[j].leaf.Synced()
      {
        OtherSlotKept(i, v, j);
      }
    }

    twostate lemma ReplacedIsPending(new i: nat, new v: Trie.Tree)
      requires i < NODE_WIDTH && old(Shape()) && old(Synced()) && i in old(cow) && Replaced(i, v)
      ensures Pending(i, v)
    {
      ReplacedOtherSlots(i, v);
      ReplacedOccupant(i, v);
      ReplacedOtherSlotsSynced(i, v);
    }

    /** What the shape says about one slot. */
    lemma SlotFacts(i: nat)
      requires Shape() && i < NODE_WIDTH
      ensures this in nodes && |children| == NODE_WIDTH && view.Node? && |view.children| == NODE_WIDTH
      ensures children[i].EmptyChild? <==> view.children[i].Empty?
      ensures children[i].LeafChild? ==>
        && children[i].leaf in leaves && children[i].leaf.depth == depth + 1
        && view.children[i] == Trie.Leaf(children[i].leaf.stem, children[i].leaf.values)
      ensures children[i].InternalChild? ==>
        && children[i].node in nodes && this !in children[i].node.nodes
        && children[i].node.depth == depth + 1 && children[i].node.Shape() && view.children[i] == children[i].node.view
      ensures ChildNodes(children[i]) <= nodes && ChildLeaves(children[i]) <= leaves
    {
      assert Slot(children[i], view.children[i]);
      assert children[i].InternalChild? ==> children[i].node.Shape();
    }

    lemma RecordFacts()
      requires Shape() && Synced()
      ensures forall i :: i in cow ==> i < NODE_WIDTH
      ensures |basis| == NODE_WIDTH && commitment == Commit(basis)
    {
    }

    lemma ChildFootprint(i: nat)
      requires Shape() && i < NODE_WIDTH
      ensures this !in ChildNodes(children[i])
      ensures children[i].InternalChild? ==> ChildNodes(children[i]) < nodes
      ensures forall j :: 0 <= j < NODE_WIDTH && j != i ==> ChildNodes(children[i]) !! ChildNodes(children[j])
    {
      assert Slot(children[i], view.children[i]);
    }

    /** What every branch of an insertion leaves behind: slot `i` holds the new subtree, built from
        the old one and fresh objects, and this node's footprint and view are still to be adjusted. */
    twostate predicate SlotInserted(new i: nat, new v: Trie.Tree)
      requires i < |old(children)|
      reads *
    {
      && Pending(i, v) && i < |children|
      && Ready() && (forall l :: l in ChildLeaves(children[i]) ==> l.Ready())
      && old(ChildNodes(children[i])) <= ChildNodes(children[i]) && old(ChildLeaves(children[i])) <= ChildLeaves(children[i])
      && fresh(ChildNodes(children[i]) - old(ChildNodes(children[i])))
      && fresh(ChildLeaves(children[i]) - old(ChildLeaves(children[i])))
      && depth == old(depth) && nodes == old(nodes) && leaves == old(leaves) && view == old(view)
      && commitment == old(commitment) && cow == old(cow)
    }

    twostate lemma ReplacedIsInserted(new i: nat, new v: Trie.Tree)
      requires i < NODE_WIDTH && old(Shape()) && old(Synced()) && old(Ready()) && i in old(cow) && Replaced(i, v)
      requires forall l :: l in ChildLeaves(children[i]) ==> l.Ready()
      requires old(ChildNodes(children[i])) <= ChildNodes(children[i]) && old(ChildLeaves(children[i])) <= ChildLeaves(children[i])
      ensures SlotInserted(i, v)
    {
      forall l | l in leaves ensures l.Ready() {
        assert old(l.Ready());
      }
      ReplacedIsPending(i, v);
      hide Pending, Shape, Slot, Synced;
    }

    /** The slot is empty: a new leaf goes there. */
    method InsertIntoEmpty(i: nat, stem: Stem, values: Values) returns (err: bool)
      requires Shape() && Synced() && Ready() && i < NODE_WIDTH && i in cow && children[i].EmptyChild?
      modifies this`children
      ensures err <==> AnyTooLong(values)
      ensures !err ==> SlotInserted(i, Trie.Leaf(stem, values))
    {
      hide Commit, Shape, Slot, Synced, LocallySynced, OtherSlots, OtherSlotsSynced, NewOccupant, Pending, SlotInserted;
      hide LeafNode.Synced, AnyTooLong, Merge;
      SlotFacts(i);
      var leaf, failed := LeafNode.New(stem, values);
      if failed {
        return true;
      }
      children := children[i := LeafChild(leaf)];
      leaf.depth := depth + 1;
      ReplacedIsInserted(i, Trie.Leaf(stem, values));
      return false;
    }

    /** The slot holds a leaf of the same stem: its values are merged. */
    method InsertIntoLeaf(i: nat, values: Values) returns (err: bool)
      requires Shape() && Synced() && Ready() && i < NODE_WIDTH && i in cow && children[i].LeafChild?
      modifies children[i].leaf
      ensures err <==> AnyTooLong(values)
      ensures !err ==> SlotInserted(i, Trie.Leaf(old(children[i].leaf.stem), Merge(old(children[i].leaf.values), values)))
    {
      hide Commit, Shape, Slot, Synced, LocallySynced, OtherSlots, OtherSlotsSynced, NewOccupant, Pending, SlotInserted;
      hide LeafNode.Synced, AnyTooLong, Merge;
      SlotFacts(i);
      SyncedFacts(i);
      var leaf := children[i].leaf;
      err := leaf.UpdateMultipleLeaves(values);
      if !err {
        ReplacedIsInserted(i, Trie.Leaf(leaf.stem, leaf.values));
      }
    }

    lemma SyncedFacts(i: nat)
      requires Shape() && Synced() && i < NODE_WIDTH
      ensures children[i].LeafChild? ==> children[i].leaf.Synced()
      ensures children[i].InternalChild? ==> children[i].node.Shape() && children[i].node.Synced()
    {
      assert Slot(children[i], view.children[i]);
    }

    lemma LoneLeafIsPending(i: nat, leaf: LeafNode)
      requires this in nodes && nodes == {this} && leaves == {} && view == Trie.New()
      requires i < NODE_WIDTH && children == NoChildren()[i := LeafChild(leaf)]
      requires |basis| == NODE_WIDTH && (forall j :: 0 <= j < NODE_WIDTH ==> basis[j] == 0) && commitment == Commit(basis)
      requires cow == map[i := IDENTITY]
      requires leaf.Synced() && leaf.depth == depth + 1
      ensures Pending(i, Trie.Leaf(leaf.stem, leaf.values))
    {
      hide Commit, LeafNode.Synced;
    }

    /** A new internal node holding only the given leaf, moved one level down. */
    method NewBranch(leaf: LeafNode, depth: nat) returns (b: InternalNode)
      requires leaf.Synced() && leaf.Ready() && leaf.depth == depth && depth < STEM_SIZE
      modifies leaf`depth
      ensures fresh(b) && b.Shape() && b.Synced() && b.Ready() && b.depth == depth
      ensures b.nodes == {b} && b.leaves == {leaf}
      ensures b.view == Trie.Branch(Trie.Leaf(leaf.stem, leaf.values), depth)
    {
      hide Commit, Shape, Slot, Synced, LocallySynced, OtherSlots, OtherSlotsSynced, NewOccupant, Pending;
      hide LeafNode.Synced;
      var next := leaf.stem[depth];
      b := new InternalNode(depth);
      b.CowChild(next);
      b.children := b.children[next := LeafChild(leaf)];
      leaf.depth := leaf.depth + 1;
      b.LoneLeafIsPending(next, leaf);
      b.RefitSynced(next, Trie.Leaf(leaf.stem, leaf.values), {}, {});
    }

    /** The slot holds a leaf of another stem: an internal node takes its place, and insertion
        goes on there. */
    method InsertBySplitting(i: nat, stem: Stem, values: Values) returns (err: bool)
      requires Shape() && Synced() && Ready() && i < NODE_WIDTH && i in cow
      requires children[i].LeafChild? && children[i].leaf.stem != stem
      requires depth < STEM_SIZE && Trie.Valid(view.children[i], stem[..depth + 1])
      modifies `children, children[i].leaf
      ensures err <==> AnyTooLong(values)
      ensures !err ==> SlotInserted(i, Trie.InsertChild(old(view.children[i]), old(depth) + 1, stem, values))
      decreases STEM_SIZE - depth, 0
    {
      hide Commit, Shape, Slot, Synced, LocallySynced, OtherSlots, OtherSlotsSynced, NewOccupant, Pending, SlotInserted;
      hide LeafNode.Synced, AnyTooLong, Merge, Trie.Valid, Trie.Insert;
      SlotFacts(i);
      SyncedFacts(i);
      Trie.SplitRoom(view.children[i], depth + 1, stem);
      var child := children[i].leaf;
      var nextWordInExistingKey := child.stem[depth + 1];
      var newBranch := NewBranch(child, depth + 1);
      children := children[i := InternalChild(newBranch)];
      var nextWordInInsertedKey := stem[depth + 1];
      if nextWordInInsertedKey == nextWordInExistingKey {
        err := newBranch.InsertValuesAtStem(stem, values);
      } else {
        err := newBranch.InsertBeside(stem, values);
      }
      if !err {
        ReplacedIsInserted(i, newBranch.view);
      }
    }

    /** The slot holds an internal node: insertion goes on there. */
    method InsertIntoInternal(i: nat, stem: Stem, values: Values) returns (err: bool)
      requires Shape() && Synced() && Ready() && i < NODE_WIDTH && i in cow && children[i].InternalChild?
      requires depth < STEM_SIZE && Trie.Valid(view.children[i], stem[..depth + 1])
      modifies children[i].node.nodes, children[i].node.leaves
      ensures err <==> AnyTooLong(values)
      ensures !err ==> SlotInserted(i, Trie.InsertChild(old(view.children[i]), old(depth) + 1, stem, values))
      decreases STEM_SIZE - depth, 0
    {
      hide Commit, Shape, Slot, Synced, LocallySynced, OtherSlots, OtherSlotsSynced, NewOccupant, Pending, SlotInserted;
      hide LeafNode.Synced, AnyTooLong, Merge, Trie.Insert;
      SlotFacts(i);
      SyncedFacts(i);
      var child := children[i].node;
      err := child.InsertValuesAtStem(stem, values);
      if !err {
        ReplacedIsInserted(i, child.view);
      }
    }

    /** The outcome of a successful insertion. */
    twostate predicate Inserted(new stem: Stem, new values: Values)
      requires old(depth) < STEM_SIZE && old(view).Node? && Trie.Valid(old(view), stem[..old(depth)])
      reads *
    {
      && Shape() && Synced() && Ready()
      && view == Trie.Insert(old(view), old(depth), stem, values)
      && depth == old(depth) && commitment == old(commitment) && stem[depth] in cow
      && old(nodes) <= nodes && old(leaves) <= leaves
      && fresh(nodes - old(nodes)) && fresh(leaves - old(leaves))
    }

    /** The next words differ: the new leaf goes straight into its slot. */
    method InsertBeside(stem: Stem, values: Values) returns (err: bool)
      requires Shape() && Synced() && Ready()
      requires depth < STEM_SIZE && Trie.Valid(view, stem[..depth]) && view.children[stem[depth]].Empty?
      modifies `children, `cow, `nodes, `leaves, `view
      ensures err <==> AnyTooLong(values)
      ensures !err ==> Inserted(stem, values)
    {
      hide Commit, Shape, Slot, Synced, LocallySynced, OtherSlots, OtherSlotsSynced, NewOccupant, Pending;
      hide LeafNode.Synced, AnyTooLong, Merge, Trie.Insert;
      var i := stem[depth];
      SlotFacts(i);
      PathStep(stem, depth);
      CowChild(i);
      err := InsertIntoEmpty(i, stem, values);
      if !err {
        FinishInsert(i, stem, values);
      }
    }

    /** The branches of an insertion, by what the slot holds. */
    method InsertIntoSlot(i: nat, stem: Stem, values: Values) returns (err: bool)
      requires Shape() && Synced() && Ready() && i < NODE_WIDTH && i in cow
      requires depth < STEM_SIZE && Trie.Valid(view.children[i], stem[..depth + 1])
      modifies nodes - {this}, leaves, `children
      ensures err <==> AnyTooLong(values)
      ensures !err ==> SlotInserted(i, Trie.InsertChild(old(view.children[i]), old(depth) + 1, stem, values))
      decreases STEM_SIZE - depth, 1
    {
      hide Commit, Shape, Slot, Synced, LocallySynced, OtherSlots, OtherSlotsSynced, NewOccupant, Pending, SlotInserted;
      hide LeafNode.Synced, AnyTooLong, Merge, Trie.Insert;
      SlotFacts(i);
      match children[i]
      case EmptyChild =>
        err := InsertIntoEmpty(i, stem, values);
      case LeafChild(child) =>
        if child.stem == stem {
          err := InsertIntoLeaf(i, values);
        } else {
          err := InsertBySplitting(i, stem, values);
        }
      case InternalChild(child) =>
        err := InsertIntoInternal(i, stem, values);
    }

    method InsertValuesAtStem(stem: Stem, values: Values) returns (err: bool)
      requires Shape() && Synced() && Ready()
      requires depth < STEM_SIZE && Trie.Valid(view, stem[..depth])
      modifies nodes, leaves
      ensures err <==> AnyTooLong(values)
      ensures !err ==> Inserted(stem, values)
      decreases STEM_SIZE - depth, 3
    {
      hide Commit, Shape, Slot, Synced, LocallySynced, OtherSlots, OtherSlotsSynced, NewOccupant, Pending;
      hide LeafNode.Synced, AnyTooLong, Merge, Trie.Insert, Trie.InsertChild, ChildNodes, ChildLeaves;
      SlotFacts(stem[depth]);
      CowChild(stem[depth]);
      err := InsertBelowRecord(stem, values);
    }

    /** The rest, once the child on the way is recorded. */
    method InsertBelowRecord(stem: Stem, values: Values) returns (err: bool)
      requires Shape() && Synced() && Ready()
      requires depth < STEM_SIZE && Trie.Valid(view, stem[..depth]) && stem[depth] in cow
      modifies nodes, leaves
      ensures err <==> AnyTooLong(values)
      ensures !err ==> Inserted(stem, values)
      decreases STEM_SIZE - depth, 2
    {
      hide Commit, Shape, Slot, Synced, LocallySynced, OtherSlots, OtherSlotsSynced, NewOccupant, Pending;
      hide LeafNode.Synced, AnyTooLong, Merge, Trie.Insert, Trie.InsertChild, ChildNodes, ChildLeaves;
      var i := stem[depth];
      SlotFacts(i);
      PathStep(stem, depth);
      err := InsertIntoSlot(i, stem, values);
      if !err {
        FinishInsert(i, stem, values);
      }
    }

    /** Brings footprint and view up to date once slot `i` is done. */
    ghost method FinishInsert(i: nat, stem: Stem, values: Values)
      requires this in nodes && depth < STEM_SIZE && i == stem[depth] && Trie.Valid(view, stem[..depth]) && view.Node?
      requires |view.children| == NODE_WIDTH
      requires Trie.Valid(view.children[i], stem[..depth + 1])
      requires i < |children| && Pending(i, Trie.InsertChild(view.children[i], depth + 1, stem, values))
      requires Ready() && forall l :: l in ChildLeaves(children[i]) ==> l.Ready()
      modifies `nodes, `leaves, `view
      ensures Shape() && Synced() && Ready() && view == Trie.Insert(old(view), depth, stem, values)
      ensures nodes == old(nodes + ChildNodes(children[i])) && leaves == old(leaves + ChildLeaves(children[i]))
    {
      hide Commit, Shape, Slot, Synced, LocallySynced, OtherSlots, OtherSlotsSynced, NewOccupant, Pending;
      hide Trie.Valid, Trie.InsertChild;
      PathStep(stem, depth);
      RefitSynced(i, Trie.InsertChild(view.children[i], depth + 1, stem, values), {}, {});
    }

    /** What slot `i` lost in a replacement is in no slot any more. */
    twostate lemma LostIsDropped(new i: nat, new v: Trie.Tree)
      requires i < NODE_WIDTH && old(Shape()) && old(Synced()) && Replaced(i, v)
      ensures Dropped(old(ChildNodes(children[i])) - ChildNodes(children[i]), old(ChildLeaves(children[i])) - ChildLeaves(children[i]))
    {
      assert this !in old(ChildNodes(children[i])) by {
        assert old(Slot(children[i], view.children[i]));
      }
      forall j | 0 <= j < NODE_WIDTH && j != i
        ensures ChildNodes(children[j]) !! old(ChildNodes(children[i])) && ChildLeaves(children[j]) !! old(ChildLeaves(children[i]))
      {
        OtherSlotKept(i, v, j);
      }
    }

    // ----- Reading -------------------------------------------------------

    method GetValuesAtStem(stem: Stem) returns (found: Trie.Lookup)
      requires Shape() && depth < STEM_SIZE && Trie.Valid(view, stem[..depth])
      ensures found == Trie.Find(view, depth, stem)
      decreases STEM_SIZE - depth
    {
      SlotFacts(stem[depth]);
      PathStep(stem, depth);
      hide Shape, Slot;
      match children[stem[depth]]
      case EmptyChild => return Trie.Absent;
      case LeafChild(child) =>
        if child.stem == stem {
          return Trie.Found(child.values);
        }
        return Trie.Absent;
      case InternalChild(child) =>
        found := child.GetValuesAtStem(stem);
    }

    /** Get at the root: an error for a key of the wrong length, nil for an absent one. */
    method Get(key: seq<byte>) returns (value: Value, err: bool)
      requires Shape() && depth == 0 && Trie.Valid(view, [])
      ensures err <==> |key| != KEY_SIZE
      ensures !err ==> value == Trie.Get(view, key)
    {
      if |key| != KEY_SIZE {
        return Nil, true;
      }
      var k: Key := key;
      assert KeyToStem(k)[..0] == [];
      var stemValues := GetValuesAtStem(KeyToStem(k));
      match stemValues
      case Absent => return Nil, false;
      case Found(values) => return values[Suffix(k)], false;
    }

    /** Insert: one value at one key. */
    method Insert(key: Key, value: Value) returns (err: bool)
      requires Shape() && Synced() && Ready()
      requires depth < STEM_SIZE && Trie.Valid(view, KeyToStem(key)[..depth])
      modifies nodes, leaves
      ensures err <==> TooLong(value)
      ensures !err ==> Inserted(KeyToStem(key), Trie.Single(key, value))
    {
      hide Shape, Synced, Ready, Inserted;
      var values := EmptyValues()[Suffix(key) := value];
      assert AnyTooLong(values) <==> TooLong(value) by {
        assert TooLong(value) ==> TooLong(values[Suffix(key)]);
      }
      err := InsertValuesAtStem(KeyToStem(key), values);
    }

    // ----- Deletion ------------------------------------------------------

    /** On the key's path, the half of its leaf still has its commitment. */
    ghost predicate Deletable(key: Key)
      requires Shape()
      reads this`children, this`depth, this`nodes, this`leaves, this`view
      reads nodes`children, nodes`depth, nodes`nodes, nodes`leaves, nodes`view
      reads leaves`stem, leaves`values, leaves`depth, leaves`c1, leaves`c2
      decreases nodes
    {
      depth < STEM_SIZE ==>
        match children[key[depth]]
        case EmptyChild => true
        case LeafChild(l) => Within(LeafChild(l)) && (l.stem == KeyToStem(key) ==> if Suffix(key) < 128 then l.c1.Set? else l.c2.Set?)
        case InternalChild(n) => Slot(InternalChild(n), view.children[key[depth]]) && n.Deletable(key)
    }

    lemma DeletableFacts(key: Key)
      requires Shape() && Deletable(key) && depth < STEM_SIZE
      ensures var c := children[key[depth]];
              && (c.LeafChild? && c.leaf.stem == KeyToStem(key) ==> if Suffix(key) < 128 then c.leaf.c1.Set? else c.leaf.c2.Set?)
              && (c.InternalChild? ==> c.node.Shape() && c.node.Deletable(key))
    {
      hide LeafNode.Synced;
    }

    /** A key with a value can be deleted: its half is not empty, so its commitment is there. */
    lemma PresentIsDeletable(key: Key)
      requires Shape() && Synced() && depth < STEM_SIZE && Trie.Valid(view, key[..depth])
      requires Trie.Find(view, depth, KeyToStem(key)).Found?
      requires Trie.Find(view, depth, KeyToStem(key)).values[Suffix(key)].Len() > 0
      ensures Deletable(key)
      decreases nodes
    {
      hide Commit, Shape, Slot, Synced, LocallySynced, Deletable, SuffixPoly, C1, C2, LeafCommitment;
      var i := key[depth];
      assert key[..depth + 1] == key[..depth] + [i] && KeyToStem(key)[depth] == i;
      SlotFacts(i);
      SyncedFacts(i);
      if children[i].InternalChild? {
        children[i].node.PresentIsDeletable(key);
      }
      DeletableFromChild(key);
    }

    lemma DeletableFromChild(key: Key)
      requires Shape() && depth < STEM_SIZE
      requires var c := children[key[depth]];
        && (c.LeafChild? && c.leaf.stem == KeyToStem(key) ==> if Suffix(key) < 128 then c.leaf.c1.Set? else c.leaf.c2.Set?)
        && (c.InternalChild? ==> c.node.Shape() && c.node.Deletable(key))
      ensures Deletable(key)
    {
      assert Within(children[key[depth]]) && Slot(children[key[depth]], view.children[key[depth]]);
    }

    /** Deletes below slot `i` and empties the slot when told to. */
    method DeleteInSlot(i: nat, key: Key) returns (gone: bool)
      requires Shape() && Synced() && Deletable(key) && depth < STEM_SIZE && i == key[depth] && i in cow
      requires !children[i].EmptyChild? && Trie.Valid(view.children[i], key[..depth + 1])
      modifies nodes - {this}, leaves, `children
      ensures |children| == NODE_WIDTH
      ensures Pending(i, Trie.DeleteChild(old(view.children[i]), old(depth) + 1, key))
      ensures gone == Trie.Delete(old(view.children[i]), old(depth) + 1, key).1
      ensures depth == old(depth) && nodes == old(nodes) && leaves == old(leaves) && view == old(view)
      ensures commitment == old(commitment) && cow == old(cow)
      ensures ChildNodes(children[i]) <= old(ChildNodes(children[i])) && ChildLeaves(children[i]) <= old(ChildLeaves(children[i]))
      ensures Dropped(old(ChildNodes(children[i])) - ChildNodes(children[i]), old(ChildLeaves(children[i])) - ChildLeaves(children[i]))
      decreases STEM_SIZE - depth, 1
    {
      hide Commit, Shape, Slot, Synced, LocallySynced, OtherSlots, OtherSlotsSynced, NewOccupant, Pending;
      hide LeafNode.Synced, Dropped, Deletable, Trie.Valid, Trie.Delete;
      SlotFacts(i);
      ghost var v;
      gone, v := DeleteOccupant(i, key);
      if gone {
        children := children[i := EmptyChild];
        v := Trie.Empty;
      }
      assert Replaced(i, v);
      hide Replaced;
      ReplacedIsPending(i, v);
      LostIsDropped(i, v);
    }

    /** The deletion in the child itself, which stays in its slot for now. */
    method DeleteOccupant(i: nat, key: Key) returns (gone: bool, ghost v: Trie.Tree)
      requires Shape() && Synced() && Deletable(key) && depth < STEM_SIZE && i == key[depth] && i in cow
      requires !children[i].EmptyChild? && Trie.Valid(view.children[i], key[..depth + 1])
      modifies nodes - {this}, leaves
      ensures unchanged(this) && OthersUntouched(i) && (!gone ==> Replaced(i, v))
      ensures (v, gone) == Trie.Delete(old(view.children[i]), depth + 1, key)
      ensures ChildNodes(children[i]) <= old(ChildNodes(children[i])) && ChildLeaves(children[i]) <= old(ChildLeaves(children[i]))
      decreases STEM_SIZE - depth, 0
    {
      hide Commit, Shape, Slot, Synced, LocallySynced, OtherSlots, OtherSlotsSynced, NewOccupant, Pending;
      hide LeafNode.Synced, Dropped, Deletable;
      SlotFacts(i);
      SyncedFacts(i);
      DeletableFacts(key);
      match children[i] {
        case LeafChild(child) =>
          gone := child.Delete(key);
          v := Trie.Leaf(child.stem, child.values);
        case InternalChild(child) =>
          gone := child.Delete(key);
          v := child.view;
      }
      assert children == children[i := children[i]];
    }

    method AllChildrenEmpty() returns (all: bool)
      requires Shape()
      ensures all <==> Trie.AllEmpty(view.children)
    {
      var i := 0;
      while i < NODE_WIDTH
        invariant 0 <= i <= NODE_WIDTH
        invariant forall j :: 0 <= j < i ==> view.children[j].Empty?
      {
        SlotFacts(i);
        if !children[i].EmptyChild? {
          return false;
        }
        i := i + 1;
      }
      return true;
    }

    method Delete(key: Key) returns (gone: bool)
      requires Shape() && Synced() && Deletable(key)
      requires depth < STEM_SIZE && Trie.Valid(view, key[..depth])
      modifies nodes, leaves
      ensures Shape() && Synced()
      ensures (view, gone) == Trie.Delete(old(view), depth, key)
      ensures depth == old(depth) && commitment == old(commitment)
      ensures nodes <= old(nodes) && leaves <= old(leaves)
      decreases STEM_SIZE - depth, 2
    {
      hide Commit, Shape, Slot, Synced, LocallySynced, OtherSlots, OtherSlotsSynced, NewOccupant, Pending, Dropped;
      hide LeafNode.Synced, Deletable;
      var i := key[depth];
      assert key[..depth + 1] == key[..depth] + [i];
      SlotFacts(i);
      if children[i].EmptyChild? {
        assert view.children[i := Trie.Empty] == view.children;
        return false;
      }
      CowChild(i);
      ghost var dn, dl := ChildNodes(children[i]), ChildLeaves(children[i]);
      gone := DeleteInSlot(i, key);
      dn, dl := dn - ChildNodes(children[i]), dl - ChildLeaves(children[i]);
      RefitSynced(i, Trie.DeleteChild(old(view).children[i], depth + 1, key), dn, dl);
      if gone {
        gone := AllChildrenEmpty();
      }
    }
  }
}
