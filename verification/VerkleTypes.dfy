/** Bytes, stems, keys and values of the trie, and the polynomials a leaf commits to. */
module VerkleTypes {
  import opened Pedersen

  const NODE_WIDTH: nat := 256
  const STEM_SIZE: nat := 31
  const KEY_SIZE: nat := 32
  const LEAF_VALUE_SIZE: nat := 32

  type byte = b: int | 0 <= b < 256

  type Stem = s: seq<byte> | |s| == STEM_SIZE witness seq(STEM_SIZE, _ => 0)
  type Key = k: seq<byte> | |k| == KEY_SIZE witness seq(KEY_SIZE, _ => 0)

  /** A Go byte slice: nil is distinct from the empty slice. */
  datatype Value = Nil | Bytes(bytes: seq<byte>) {
    function Len(): nat {
      if Nil? then 0 else |bytes|
    }
  }

  type Values = vs: seq<Value> | |vs| == NODE_WIDTH witness seq(NODE_WIDTH, _ => Nil)

  function EmptyValues(): (r: Values)
    ensures forall i :: 0 <= i < NODE_WIDTH ==> r[i] == Nil
  {
    seq(NODE_WIDTH, _ => Nil)
  }

  function KeyToStem(key: Key): Stem {
    key[..STEM_SIZE]
  }

  function Suffix(key: Key): byte {
    key[STEM_SIZE]
  }

  function MakeKey(stem: Stem, suffix: byte): Key {
    stem + [suffix]
  }

  function LittleEndian(b: seq<byte>): nat {
    if b == [] then 0 else b[0] + 256 * LittleEndian(b[1..])
  }

  /** The two scalars of a value: its low 16 bytes with the marker 2^128, and the rest. */
  function LeafToComms(v: Value): (Scalar, Scalar) {
    if v.Len() == 0 then (0, 0)
    else
      var loEnd := if |v.bytes| < 16 then |v.bytes| else 16;
      var lo := LittleEndian(v.bytes[..loEnd]) + 0x1_0000_0000_0000_0000_0000_0000_0000_0000;
      var hi := if |v.bytes| >= 16 then LittleEndian(v.bytes[16..]) else 0;
      (lo, hi)
  }

  /** leafToComms fails on a value longer than LeafValueSize. */
  predicate TooLong(v: Value) {
    v.Len() > LEAF_VALUE_SIZE
  }

  predicate AnyTooLong(vs: seq<Value>) {
    exists i :: 0 <= i < |vs| && TooLong(vs[i])
  }

  /** The suffix-tree polynomial of 128 consecutive values starting at `first`. */
  function SuffixPoly(vs: Values, first: nat): (f: Poly)
    requires first == 0 || first == 128
    ensures |f| == NODE_WIDTH
  {
    seq(NODE_WIDTH, j requires 0 <= j < NODE_WIDTH =>
      if j % 2 == 0 then LeafToComms(vs[first + j / 2]).0 else LeafToComms(vs[first + j / 2]).1)
  }

  function C1(vs: Values): Point {
    Commit(SuffixPoly(vs, 0))
  }

  function C2(vs: Values): Point {
    Commit(SuffixPoly(vs, 128))
  }

  /** The extension polynomial (1, stem, C1, C2, 0, ...). */
  function LeafPoly(stem: Stem, c1: Point, c2: Point): (f: Poly)
    ensures |f| == NODE_WIDTH
  {
    seq(NODE_WIDTH, j requires 0 <= j < NODE_WIDTH =>
      if j == 0 then 1
      else if j == 1 then LittleEndian(stem)
      else if j == 2 then MapToScalarField(c1)
      else if j == 3 then MapToScalarField(c2)
      else 0)
  }

  function LeafCommitment(stem: Stem, vs: Values): Point {
    Commit(LeafPoly(stem, C1(vs), C2(vs)))
  }

  /** Writing `vs` over `old`: an empty value leaves the old one in place. */
  function Merge(old_: Values, vs: Values): (r: Values)
    ensures forall i :: 0 <= i < NODE_WIDTH ==> r[i] == if vs[i].Len() != 0 then vs[i] else old_[i]
  {
    seq(NODE_WIDTH, i requires 0 <= i < NODE_WIDTH => if vs[i].Len() != 0 then vs[i] else old_[i])
  }

  /** No value in the half starting at `first`. */
  predicate HalfEmpty(vs: Values, first: nat)
    requires first == 0 || first == 128
  {
    forall i :: first <= i < first + 128 ==> vs[i].Len() == 0
  }

  lemma EmptyHalfCommitsToIdentity(vs: Values, first: nat)
    requires first == 0 || first == 128
    requires HalfEmpty(vs, first)
    ensures Commit(SuffixPoly(vs, first)) == IDENTITY
  {
    forall j | 0 <= j < NODE_WIDTH ensures SuffixPoly(vs, first)[j] == 0 {
      assert vs[first + j / 2].Len() == 0;
    }
    CommitZero(SuffixPoly(vs, first));
  }

  /** The path of a child, read off a stem. */
  lemma PathStep(stem: Stem, depth: nat)
    requires depth < STEM_SIZE
    ensures stem[..depth + 1] == stem[..depth] + [stem[depth]]
  {
  }
}
