/** Leaf nodes: 256 values under one stem, with the commitments C1, C2 and the extension
    commitment kept up to date by differences. */
module LeafNodes {
  import opened Pedersen
  import opened VerkleTypes
  import Trie

  /** A commitment pointer; a deletion can leave it nil. */
  datatype Cached = Unset | Set(point: Point)

  // ----- The cached empty code hash --------------------------------------

  const CODE_HASH_POSITION: nat := 3
  const FIRST_HALF_INDEX: nat := 6
  const SECOND_HALF_INDEX: nat := 7

  const EMPTY_CODE_HASH: seq<byte> :=
    [0xc5, 0xd2, 0x46, 0x01, 0x86, 0xf7, 0x23, 0x3c, 0x92, 0x7e, 0x7d, 0xb2, 0xdc, 0xc7, 0x03, 0xc0,
     0xe5, 0x00, 0xb6, 0x53, 0xca, 0x82, 0x27, 0x3b, 0x7b, 0xfa, 0xd8, 0x04, 0x5d, 0x85, 0xa4, 0x70]

  /** The polynomial GetConfig commits to: the empty code hash and nothing else. */
  function EmptyCodePoly(hash: Value): (f: Poly)
    ensures |f| == NODE_WIDTH
  {
    SuffixPoly(EmptyValues()[CODE_HASH_POSITION := hash], 0)
  }

  /** Zero but at the two coefficients of the code hash. */
  ghost predicate CodeHashOnly(f: Poly) {
    |f| == NODE_WIDTH && forall j :: 0 <= j < NODE_WIDTH && j != FIRST_HALF_INDEX && j != SECOND_HALF_INDEX ==> f[j] == 0
  }

  lemma EmptyCodePolyIsSparse(hash: Value)
    ensures CodeHashOnly(EmptyCodePoly(hash))
  {
    forall j | 0 <= j < NODE_WIDTH && j != FIRST_HALF_INDEX && j != SECOND_HALF_INDEX
      ensures EmptyCodePoly(hash)[j] == 0
    {
      assert j / 2 != CODE_HASH_POSITION;
    }
  }

  /** Adding the cached point to the commitment of the rest gives the plain commitment. */
  lemma EmptyCodeHashShortcut(e: Poly, f: Poly)
    requires CodeHashOnly(e) && |f| == NODE_WIDTH
    requires f[FIRST_HALF_INDEX] == e[FIRST_HALF_INDEX] && f[SECOND_HALF_INDEX] == e[SECOND_HALF_INDEX]
    ensures Commit(e) + Commit(f[FIRST_HALF_INDEX := 0][SECOND_HALF_INDEX := 0]) == Commit(f)
  {
    CommitIsLinear(e, f[FIRST_HALF_INDEX := 0][SECOND_HALF_INDEX := 0], f);
  }

  /** GetConfig: the cached point and the two scalars it stands for. */
  method GetConfig() returns (point: Point, firstHalf: Scalar, secondHalf: Scalar)
    ensures var poly := EmptyCodePoly(Bytes(EMPTY_CODE_HASH));
            && CodeHashOnly(poly) && point == Commit(poly)
            && firstHalf == poly[FIRST_HALF_INDEX] && secondHalf == poly[SECOND_HALF_INDEX]
  {
    var values: Values := EmptyValues()[CODE_HASH_POSITION := Bytes(EMPTY_CODE_HASH)];
    var c1poly, count, failed := FillSuffixTreePoly(values, 0);
    assert forall i :: 0 <= i < 128 ==> !TooLong(values[i]);
    EmptyCodePolyIsSparse(Bytes(EMPTY_CODE_HASH));
    point := Commit(c1poly);
    firstHalf, secondHalf := c1poly[FIRST_HALF_INDEX], c1poly[SECOND_HALF_INDEX];
  }

  // ----- Suffix polynomials ----------------------------------------------

  /** Replacing one value changes two neighbouring coefficients. */
  lemma SuffixPolyUpdate(vs: Values, first: nat, index: byte, v: Value)
    requires first == 0 || first == 128
    requires first <= index < first + 128
    ensures SuffixPoly(vs[index := v], first)
         == SuffixPoly(vs, first)[2 * (index - first) := LeafToComms(v).0][2 * (index - first) + 1 := LeafToComms(v).1]
  {
    var k := index - first;
    var f, g := SuffixPoly(vs[index := v], first), SuffixPoly(vs, first)[2 * k := LeafToComms(v).0][2 * k + 1 := LeafToComms(v).1];
    forall j | 0 <= j < NODE_WIDTH ensures f[j] == g[j] {
      assert j == 2 * (j / 2) || j == 2 * (j / 2) + 1;
    }
  }

  lemma OtherHalfUnchanged(vs: Values, first: nat, index: byte, v: Value)
    requires first == 0 || first == 128
    requires !(first <= index < first + 128)
    ensures SuffixPoly(vs[index := v], first) == SuffixPoly(vs, first)
  {
  }

  /** fillSuffixTreePoly with leafToComms, on the half starting at `first`. */
  method FillSuffixTreePoly(values: Values, first: nat) returns (poly: Poly, count: nat, err: bool)
    requires first == 0 || first == 128
    ensures err <==> exists i :: first <= i < first + 128 && TooLong(values[i])
    ensures !err ==> poly == SuffixPoly(values, first)
  {
    var a := new Scalar[NODE_WIDTH](_ => 0);
    count, err := 0, false;
    var idx := 0;
    while idx < 128
      invariant 0 <= idx <= 128 && !err
      invariant forall i :: first <= i < first + idx ==> !TooLong(values[i])
      invariant forall j :: 0 <= j < 2 * idx ==> a[j] == SuffixPoly(values, first)[j]
      invariant forall j :: 2 * idx <= j < NODE_WIDTH ==> a[j] == 0
    {
      var val := values[first + idx];
      if val != Nil {
        count := count + 1;
        if val.Len() != 0 {
          if TooLong(val) {
            return [], 0, true;
          }
          var (lo, hi) := LeafToComms(val);
          a[2 * idx] := lo;
          a[2 * idx + 1] := hi;
        }
      }
      assert SuffixPoly(values, first)[2 * idx] == LeafToComms(val).0;
      assert SuffixPoly(values, first)[2 * idx + 1] == LeafToComms(val).1;
      idx := idx + 1;
    }
    poly := a[..];
  }

  /** Changing a half commitment moves the extension commitment by a one-point difference. */
  lemma LeafPolyUpdate(stem: Stem, c1: Point, c2: Point, d1: Point, d2: Point)
    ensures Commit(LeafPoly(stem, d1, c2))
         == Commit(LeafPoly(stem, c1, c2)) + Commit(Unit(NODE_WIDTH, 2, MapToScalarField(d1) - MapToScalarField(c1)))
    ensures Commit(LeafPoly(stem, c1, d2))
         == Commit(LeafPoly(stem, c1, c2)) + Commit(Unit(NODE_WIDTH, 3, MapToScalarField(d2) - MapToScalarField(c2)))
  {
    var f := LeafPoly(stem, c1, c2);
    LeafPolyAt(stem, c1, c2, d1, d2);
    hide LeafPoly, Unit, Commit;
    CommitPatch(f, 2, MapToScalarField(d1));
    CommitPatch(f, 3, MapToScalarField(d2));
  }

  lemma LeafPolyAt(stem: Stem, c1: Point, c2: Point, d1: Point, d2: Point)
    ensures var f := LeafPoly(stem, c1, c2);
            && f[2] == MapToScalarField(c1) && f[3] == MapToScalarField(c2)
            && LeafPoly(stem, d1, c2) == f[2 := MapToScalarField(d1)]
            && LeafPoly(stem, c1, d2) == f[3 := MapToScalarField(d2)]
  {
    hide LittleEndian;
  }

  predicate AllShort(vs: seq<Value>) {
    forall i :: 0 <= i < |vs| ==> !TooLong(vs[i])
  }

  class LeafNode {
    var stem: Stem
    var values: Values
    var commitment: Point
    var c1: Cached
    var c2: Cached
    var depth: nat

    /** The cached commitments are those of the values; a nil half holds no value. */
    ghost predicate Synced()
      reads `stem, `values, `commitment, `c1, `c2
    {
      && AllShort(values)
      && commitment == LeafCommitment(stem, values)
      && (if c1.Set? then c1.point == C1(values) else HalfEmpty(values, 0))
      && (if c2.Set? then c2.point == C2(values) else HalfEmpty(values, 128))
    }

    /** Both halves have a commitment: the state insertions work from. */
    ghost predicate Ready()
      reads `c1, `c2
    {
      c1.Set? && c2.Set?
    }

    constructor (stem: Stem, values: Values, commitment: Point, c1: Point, c2: Point)
      ensures this.stem == stem && this.values == values && this.commitment == commitment
      ensures this.c1 == Set(c1) && this.c2 == Set(c2) && depth == 0
    {
      this.stem, this.values, this.commitment := stem, values, commitment;
      this.c1, this.c2 := Set(c1), Set(c2);
      this.depth := 0;
    }

    /** NewLeafNode, with the shortcut for leaves holding the empty code hash. */
    static method New(stem: Stem, values: Values) returns (leaf: LeafNode?, err: bool)
      ensures err <==> AnyTooLong(values)
      ensures !err ==>
        leaf != null && fresh(leaf) && leaf.stem == stem && leaf.values == values && leaf.Synced() && leaf.Ready()
    {
      hide Commit, SuffixPoly, LeafToComms, LittleEndian, EmptyCodePoly;
      leaf := null;
      var c1poly, count, failed := FillSuffixTreePoly(values, 0);
      var cachedPoint, firstHalf, secondHalf := GetConfig();
      if failed {
        return null, true;
      }
      var c1: Point;
      if c1poly[FIRST_HALF_INDEX] == firstHalf && c1poly[SECOND_HALF_INDEX] == secondHalf {
        EmptyCodeHashShortcut(EmptyCodePoly(Bytes(EMPTY_CODE_HASH)), c1poly);
        var partial := c1poly[FIRST_HALF_INDEX := 0][SECOND_HALF_INDEX := 0];
        c1 := cachedPoint + Commit(partial);
      } else {
        c1 := Commit(c1poly);
      }
      var c2poly;
      c2poly, count, failed := FillSuffixTreePoly(values, 128);
      if failed {
        return null, true;
      }
      var c2 := Commit(c2poly);
      var poly := seq(NODE_WIDTH, _ => 0);
      poly := poly[0 := 1][1 := LittleEndian(stem)];
      poly := poly[2 := MapToScalarField(c1)][3 := MapToScalarField(c2)];
      assert poly == LeafPoly(stem, c1, c2);
      leaf := new LeafNode(stem, values, Commit(poly), c1, c2);
      err := false;
    }

    /** Adds the change of C1 (index 2) or C2 (index 3) to the extension commitment. */
    method UpdateC(cxIndex: nat, newC: Scalar, oldC: Scalar)
      requires cxIndex < NODE_WIDTH
      modifies this`commitment
      ensures commitment == old(commitment) + Commit(Unit(NODE_WIDTH, cxIndex, newC - oldC))
    {
      var delta := newC - oldC;
      var poly := Unit(NODE_WIDTH, cxIndex, delta);
      commitment := commitment + Commit(poly);
    }

    /** Moves a half commitment `c` from the stored value at `index` to `value`. */
    method UpdateCn(index: byte, value: Value, c: Point) returns (c': Point, err: bool)
      requires AllShort(values)
      ensures err <==> TooLong(value)
      ensures var first := if index < 128 then 0 else 128;
        !err && c == Commit(SuffixPoly(values, first)) ==> c' == Commit(SuffixPoly(values[index := value], first))
    {
      hide Commit, LeafToComms, LittleEndian;
      if TooLong(value) {
        return c, true;
      }
      var old_ := LeafToComms(values[index]);
      var newH := LeafToComms(value);
      var at := 2 * (index % 128);
      var poly := Unit(NODE_WIDTH, at, newH.0 - old_.0);
      c' := c + Commit(poly);
      poly := poly[at := 0];
      poly := poly[at + 1 := newH.1 - old_.1];
      assert poly == Unit(NODE_WIDTH, at + 1, newH.1 - old_.1);
      c' := c' + Commit(poly);
      err := false;

      ghost var first := if index < 128 then 0 else 128;
      ghost var f := SuffixPoly(values, first);
      assert at / 2 == index - first && (at + 1) / 2 == index - first;
      assert f[at] == old_.0 && f[at + 1] == old_.1;
      CommitPatch(f, at, newH.0);
      CommitPatch(f[at := newH.0], at + 1, newH.1);
      SuffixPolyUpdate(values, first, index, value);
    }

    /** updateMultipleLeaves: merges the non-empty entries of `vs` into the leaf. */
    method UpdateMultipleLeaves(vs: Values) returns (err: bool)
      requires Synced() && Ready()
      modifies this`values, this`c1, this`c2, this`commitment
      ensures err <==> AnyTooLong(vs)
      ensures !err ==> Synced() && Ready() && values == Merge(old(values), vs)
    {
      hide Commit, SuffixPoly, LeafPoly, LeafToComms, LittleEndian;
      var oldC1, oldC2 := Unset, Unset;
      err := false;
      var i := 0;
      while i < NODE_WIDTH
        invariant 0 <= i <= NODE_WIDTH && !err
        invariant AllShort(values) && AllShort(vs[..i])
        invariant forall j :: 0 <= j < i ==> values[j] == Merge(old(values), vs)[j]
        invariant forall j :: i <= j < NODE_WIDTH ==> values[j] == old(values)[j]
        invariant c1 == Set(C1(values)) && c2 == Set(C2(values))
        invariant commitment == old(commitment)
        invariant if oldC1.Set? then oldC1.point == C1(old(values)) else C1(values) == C1(old(values))
        invariant if oldC2.Set? then oldC2.point == C2(old(values)) else C2(values) == C2(old(values))
      {
        var v := vs[i];
        if v.Len() != 0 && !(values[i].Bytes? && v.bytes == values[i].bytes) {
          var failed;
          if i < NODE_WIDTH / 2 {
            if oldC1.Unset? {
              oldC1 := c1;
            }
            var c;
            c, failed := UpdateCn(i, v, c1.point);
            c1 := Set(c);
            OtherHalfUnchanged(values, 128, i, v);
          } else {
            if oldC2.Unset? {
              oldC2 := c2;
            }
            var c;
            c, failed := UpdateCn(i, v, c2.point);
            c2 := Set(c);
            OtherHalfUnchanged(values, 0, i, v);
          }
          if failed {
            return true;
          }
          values := values[i := v];
        } else {
          assert values[i] == Merge(old(values), vs)[i];
        }
        assert !TooLong(v);
        i := i + 1;
        assert vs[..i] == vs[..i - 1] + [v];
      }
      assert vs[..NODE_WIDTH] == vs;
      assert values == Merge(old(values), vs);

      LeafPolyUpdate(stem, C1(old(values)), C2(old(values)), C1(values), C2(values));
      LeafPolyUpdate(stem, C1(values), C2(old(values)), C1(values), C2(values));
      if oldC1.Set? && oldC2.Set? {
        UpdateC(2, MapToScalarField(c1.point), MapToScalarField(oldC1.point));
        UpdateC(3, MapToScalarField(c2.point), MapToScalarField(oldC2.point));
      } else if oldC1.Set? {
        UpdateC(2, MapToScalarField(c1.point), MapToScalarField(oldC1.point));
      } else if oldC2.Set? {
        UpdateC(3, MapToScalarField(c2.point), MapToScalarField(oldC2.point));
      }
    }

    /** updateLeaf: stores one value, possibly nil, and patches the commitment of its half. */
    method UpdateLeaf(index: byte, value: Value) returns (err: bool)
      requires Synced() && (if index < 128 then c1.Set? else c2.Set?)
      modifies this`values, this`c1, this`c2, this`commitment
      ensures err <==> TooLong(value)
      ensures !err ==> Synced() && values == old(values)[index := value]
      ensures c1.Set? == old(c1.Set?) && c2.Set? == old(c2.Set?)
    {
      hide Commit, SuffixPoly, LeafPoly, LeafToComms, LittleEndian;
      ghost var c2Before := C2(values);
      var oldC, newC: Point;
      if index < NODE_WIDTH / 2 {
        oldC := c1.point;
        newC, err := UpdateCn(index, value, oldC);
        c1 := Set(newC);
        OtherHalfUnchanged(values, 128, index, value);
      } else {
        oldC := c2.point;
        newC, err := UpdateCn(index, value, oldC);
        c2 := Set(newC);
        OtherHalfUnchanged(values, 0, index, value);
      }
      if err {
        return;
      }
      LeafPolyUpdate(stem, C1(values), C2(values), C1(values[index := value]), C2(values[index := value]));
      UpdateC(2 + index / (NODE_WIDTH / 2), MapToScalarField(newC), MapToScalarField(oldC));
      values := values[index := value];
    }

    /** Delete: true when the leaf has no value left and its parent should drop it. */
    method Delete(key: Key) returns (gone: bool)
      requires Synced()
      requires KeyToStem(key) == stem ==> if Suffix(key) < 128 then c1.Set? else c2.Set?
      modifies this`values, this`c1, this`c2, this`commitment
      ensures (Trie.Leaf(stem, values), gone) == Trie.Delete(Trie.Leaf(stem, old(values)), depth, key)
      ensures !gone ==> Synced()
    {
      hide Commit, SuffixPoly, LeafPoly, LeafToComms, LittleEndian;
      if KeyToStem(key) != stem {
        return false;
      }
      var k := Suffix(key);
      var original := values[k];
      values := values[k := Nil];
      ghost var rest := values;
      var isCnEmpty, isCEmpty := true, true;
      var i := 0;
      while i < NODE_WIDTH
        invariant 0 <= i <= NODE_WIDTH
        invariant isCnEmpty
        invariant forall j :: 0 <= j < i ==> values[j].Len() > 0 ==> j / 128 != k / 128
        invariant isCEmpty <==> forall j :: 0 <= j < i ==> values[j].Len() == 0
      {
        if values[i].Len() > 0 {
          if i / 128 == k / 128 {
            isCnEmpty, isCEmpty := false, false;
            break;
          }
          isCEmpty := false;
        }
        i := i + 1;
      }
      assert isCEmpty <==> Trie.NoValues(rest);
      if isCEmpty {
        return true;
      }
      if isCnEmpty {
        ghost var before := values[k := original];
        assert before == old(values);
        var subtreeIndex := 2 + k / 128;
        var poly := Unit(4, subtreeIndex, MapToScalarField(if k < 128 then c1.point else c2.point));
        CommitPadded(poly, Unit(NODE_WIDTH, subtreeIndex, poly[subtreeIndex]));
        commitment := commitment - Commit(poly);
        if k < 128 {
          OtherHalfUnchanged(before, 128, k, Nil);
          EmptyHalfCommitsToIdentity(rest, 0);
          HalfRemoved(stem, before, rest, 0);
          c1 := Unset;
        } else {
          OtherHalfUnchanged(before, 0, k, Nil);
          EmptyHalfCommitsToIdentity(rest, 128);
          HalfRemoved(stem, before, rest, 128);
          c2 := Unset;
        }
        return false;
      }
      values := values[k := original];
      assert values == old(values);
      var err := UpdateLeaf(k, Nil);
      return false;
    }
  }

  /** Subtracting the scalar of a half gives the commitment of the leaf without that half. */
  lemma HalfRemoved(stem: Stem, before: Values, rest: Values, first: nat)
    requires first == 0 || first == 128
    requires Commit(SuffixPoly(rest, first)) == IDENTITY
    requires SuffixPoly(rest, 128 - first) == SuffixPoly(before, 128 - first)
    ensures LeafCommitment(stem, rest) == LeafCommitment(stem, before)
      - Commit(Unit(NODE_WIDTH, 2 + first / 128, MapToScalarField(Commit(SuffixPoly(before, first)))))
  {
    hide Commit, SuffixPoly, LeafPoly;
    LeafPolyUpdate(stem, C1(rest), C2(rest), C1(before), C2(before));
  }
}
