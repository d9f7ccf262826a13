/** The three encodings of a leaf: a single slot, an account without code, and the full form. */
module Encoding {
  import opened Pedersen
  import opened VerkleTypes
  import LeafNodes
  import InternalNodes

  const POINT_SIZE: nat := 64
  const BITLIST_SIZE: nat := 32

  const LEAF_TYPE: byte := 2
  const EOA_TYPE: byte := 3
  const SINGLE_SLOT_TYPE: byte := 4
  const INTERNAL_TYPE: byte := 1

  const STEM_OFFSET: nat := 1
  const BITLIST_OFFSET: nat := 32
  const COMMITMENT_OFFSET: nat := 64
  const C1_OFFSET: nat := 128
  const C2_OFFSET: nat := 192
  const CHILDREN_OFFSET: nat := 256
  const SINGLE_SLOT_SIZE: nat := 193
  const EOA_SIZE: nat := 192

  type PointBytes = s: seq<byte> | |s| == POINT_SIZE witness seq(64, _ => 0)

  datatype Option<T> = None | Some(value: T)

  /** Uncompressed points on disk. */
  datatype PointCodec = PointCodec(encode: Point -> PointBytes, decode: PointBytes -> Option<Point>)

  datatype LeafData = LeafData(stem: Stem, values: Values, commitment: Point, c1: Point, c2: Point)

  predicate FaithfulAt(codec: PointCodec, p: Point) {
    codec.decode(codec.encode(p)) == Some(p)
  }

  /** The codec brings back the three commitments of a leaf. */
  predicate Faithful(codec: PointCodec, leaf: LeafData) {
    FaithfulAt(codec, leaf.commitment) && FaithfulAt(codec, leaf.c1) && FaithfulAt(codec, leaf.c2)
  }

  /** Three points told apart by their first byte. */
  function TableCodec(p: Point, q: Point, r: Point): PointCodec {
    PointCodec((x: Point) => seq(POINT_SIZE, _ => if x == p then 0 else if x == q then 1 else 2),
               (b: PointBytes) => Some(if b[0] == 0 then p else if b[0] == 1 then q else r))
  }

  /** For every leaf there is a faithful codec. */
  lemma SomeCodecIsFaithful(leaf: LeafData)
    ensures Faithful(TableCodec(leaf.commitment, leaf.c1, leaf.c2), leaf)
  {
    var codec := TableCodec(leaf.commitment, leaf.c1, leaf.c2);
    forall p | p == leaf.commitment || p == leaf.c1 || p == leaf.c2 ensures FaithfulAt(codec, p) {
      assert codec.encode(p)[0] == if p == leaf.commitment then 0 else if p == leaf.c1 then 1 else 2;
    }
  }

  /** The cached half commitments are those of the values. */
  ghost predicate CacheHolds(leaf: LeafData) {
    leaf.c1 == C1(leaf.values) && leaf.c2 == C2(leaf.values)
  }

  predicate WordSized(values: Values) {
    forall i :: 0 <= i < NODE_WIDTH ==> values[i] == Nil || values[i].Len() == LEAF_VALUE_SIZE
  }

  /** What can be written without a panic: no value is over-long, and the first one, if present, has the
      eight bytes that are looked at. */
  predicate Storable(values: Values) {
    && (forall i :: 0 <= i < NODE_WIDTH ==> !TooLong(values[i]))
    && (values[0] == Nil || values[0].Len() >= 8)
  }

  /** A present value is filled up with zeros. */
  function Padded(v: Value): (w: Value)
    requires !TooLong(v)
    ensures w == Nil || w.Len() == LEAF_VALUE_SIZE
    ensures w == v <==> v == Nil || v.Len() == LEAF_VALUE_SIZE
    ensures w == Nil <==> v == Nil
  {
    if v.Nil? then Nil
    else
      var w := Bytes(v.bytes + seq(LEAF_VALUE_SIZE - |v.bytes|, _ => 0));
      assert |v.bytes| == LEAF_VALUE_SIZE ==> w.bytes == v.bytes;
      w
  }

  function AllPadded(values: Values): (w: Values)
    requires Storable(values)
    ensures WordSized(w) && forall i :: 0 <= i < NODE_WIDTH ==> w[i] == Padded(values[i])
  {
    seq(NODE_WIDTH, i requires 0 <= i < NODE_WIDTH => Padded(values[i]))
  }

  lemma PaddedSame(values: Values)
    requires Storable(values)
    ensures AllPadded(values) == values <==> WordSized(values)
    ensures BitsOf(AllPadded(values)) == BitsOf(values)
  {
  }

  // ----- Bit lists -------------------------------------------------------

  /** The mask of bit `k` counted from the left: mask[k] of the source. */
  function Mask(k: nat): (m: nat)
    requires k < 8
    ensures m > 0
  {
    if k == 0 then 128 else if k == 1 then 64 else if k == 2 then 32 else if k == 3 then 16
    else if k == 4 then 8 else if k == 5 then 4 else if k == 6 then 2 else 1
  }

  /** A bitwise "and" with one mask. */
  predicate BitOf(b: byte, k: nat)
    requires k < 8
  {
    (b / Mask(k)) % 2 == 1
  }

  function Unit01(b: bool): (u: nat)
    ensures u <= 1
  {
    if b then 1 else 0
  }

  /** Eight bits in a byte, the first on the left. */
  function Pack(bits: seq<bool>): byte
    requires |bits| == 8
  {
    128 * Unit01(bits[0]) + 64 * Unit01(bits[1]) + 32 * Unit01(bits[2]) + 16 * Unit01(bits[3])
    + 8 * Unit01(bits[4]) + 4 * Unit01(bits[5]) + 2 * Unit01(bits[6]) + Unit01(bits[7])
  }

  /** The first `k` bits as a number, and the last 8 - k. */
  function Upper(bits: seq<bool>, k: nat): nat
    requires k <= |bits| == 8
  {
    if k == 0 then 0 else 2 * Upper(bits, k - 1) + Unit01(bits[k - 1])
  }

  function Lower(bits: seq<bool>, k: nat): (low: nat)
    requires k < |bits| == 8
    ensures low < Mask(k)
    decreases 8 - k
  {
    if k == 7 then 0 else Mask(k + 1) * Unit01(bits[k + 1]) + Lower(bits, k + 1)
  }

  /** The mask of a bit divides a byte into the bits up to it and those after it. */
  lemma {:induction false} PackSplits(bits: seq<bool>, k: nat)
    requires |bits| == 8 && k < 8
    ensures Pack(bits) == Mask(k) * Upper(bits, k + 1) + Lower(bits, k)
    decreases 8 - k
  {
    hide Pack, Unit01;
    if k == 7 {
      PackIsUpper(bits);
    } else {
      var m, x, u, low := Mask(k + 1), Upper(bits, k + 1), Unit01(bits[k + 1]), Lower(bits, k + 1);
      PackSplits(bits, k + 1);
      assert Upper(bits, k + 2) == 2 * x + u;
      assert Lower(bits, k) == m * u + low;
      assert Mask(k) == 2 * m;
      hide Mask, Upper, Lower;
      Distribute(m, x, u);
    }
  }

  lemma Distribute(m: nat, x: nat, u: nat)
    ensures m * (2 * x + u) == (2 * m) * x + m * u
  {
  }

  lemma PackIsUpper(bits: seq<bool>)
    requires |bits| == 8
    ensures Pack(bits) == Upper(bits, 8)
  {
    hide Unit01;
    assert Upper(bits, 1) == Unit01(bits[0]) by { assert Upper(bits, 0) == 0; }
    assert Upper(bits, 2) == 2 * Upper(bits, 1) + Unit01(bits[1]);
    assert Upper(bits, 3) == 2 * Upper(bits, 2) + Unit01(bits[2]);
    assert Upper(bits, 4) == 2 * Upper(bits, 3) + Unit01(bits[3]);
    assert Upper(bits, 5) == 2 * Upper(bits, 4) + Unit01(bits[4]);
    assert Upper(bits, 6) == 2 * Upper(bits, 5) + Unit01(bits[5]);
    assert Upper(bits, 7) == 2 * Upper(bits, 6) + Unit01(bits[6]);
    assert Upper(bits, 8) == 2 * Upper(bits, 7) + Unit01(bits[7]);
  }

  lemma Quotient(x: nat, m: nat, q: nat, r: nat)
    requires x == m * q + r && r < m
    ensures x / m == q
  {
    var d := x / m;
    assert x == m * d + x % m;
    assert d >= q + 1 ==> m * d >= m * (q + 1) == m * q + m;
    assert q >= d + 1 ==> m * q >= m * (d + 1) == m * d + m;
  }

  lemma PackedBit(bits: seq<bool>, k: nat)
    requires |bits| == 8 && k < 8
    ensures BitOf(Pack(bits), k) <==> bits[k]
  {
    hide Pack, Mask;
    PackSplits(bits, k);
    Quotient(Pack(bits), Mask(k), Upper(bits, k + 1), Lower(bits, k));
    assert Upper(bits, k + 1) == 2 * Upper(bits, k) + Unit01(bits[k]);
  }

  /** A bitwise "or" with one mask. */
  function SetBitOf(b: byte, k: nat): (r: int)
    requires k < 8
  {
    if BitOf(b, k) then b else b + Mask(k)
  }

  lemma PackSet(bits: seq<bool>, k: nat)
    requires |bits| == 8 && k < 8
    ensures Pack(bits[k := true]) == SetBitOf(Pack(bits), k)
  {
    hide BitOf;
    PackedBit(bits, k);
    if bits[k] {
      assert bits[k := true] == bits;
    } else {
      PackAdd(bits, k);
    }
  }

  lemma PackAdd(bits: seq<bool>, k: nat)
    requires |bits| == 8 && k < 8 && !bits[k]
    ensures Pack(bits[k := true]) == Pack(bits) + Mask(k)
  {
    var c := bits[k := true];
    assert Unit01(c[k]) == Unit01(bits[k]) + 1;
    assert forall j :: 0 <= j < 8 && j != k ==> Unit01(c[j]) == Unit01(bits[j]);
  }

  function BitsOf(values: Values): (r: seq<bool>)
    ensures |r| == NODE_WIDTH && forall i :: 0 <= i < NODE_WIDTH ==> r[i] == (values[i] != Nil)
  {
    seq(NODE_WIDTH, i requires 0 <= i < NODE_WIDTH => values[i] != Nil)
  }

  function PackAll(bits: seq<bool>): (r: seq<byte>)
    requires |bits| == NODE_WIDTH
    ensures |r| == BITLIST_SIZE
    ensures forall m :: 0 <= m < BITLIST_SIZE ==> r[m] == Pack(bits[8 * m..8 * m + 8])
  {
    seq(BITLIST_SIZE, m requires 0 <= m < BITLIST_SIZE => Pack(bits[8 * m..8 * m + 8]))
  }

  /** bit: false beyond the end of the list. */
  predicate Bit(bitlist: seq<byte>, nr: nat) {
    8 * |bitlist| > nr && BitOf(bitlist[nr / 8], nr % 8)
  }

  lemma BitOfPacked(bits: seq<bool>, nr: nat)
    requires |bits| == NODE_WIDTH && nr < NODE_WIDTH
    ensures Bit(PackAll(bits), nr) <==> bits[nr]
  {
    var m := nr / 8;
    PackedBit(bits[8 * m..8 * m + 8], nr % 8);
    assert bits[8 * m..8 * m + 8][nr % 8] == bits[nr];
  }

  // ----- What is written --------------------------------------------------

  /** Values that are present among the first `n`. */
  function CountOf(values: Values, n: nat): (c: nat)
    requires n <= NODE_WIDTH
    ensures c <= n
  {
    if n == 0 then 0 else CountOf(values, n - 1) + Unit01(values[n - 1] != Nil)
  }

  /** The last present value among the first `n`; 0 when there is none. */
  function LastOf(values: Values, n: nat): (i: nat)
    requires n <= NODE_WIDTH
    ensures i < NODE_WIDTH && (CountOf(values, n) > 0 ==> i < n && values[i] != Nil)
  {
    if n == 0 then 0 else if values[n - 1] != Nil then n - 1 else LastOf(values, n - 1)
  }

  lemma {:induction false} OnlyLast(values: Values, n: nat)
    requires n <= NODE_WIDTH
    ensures CountOf(values, n) == 0 ==> forall i :: 0 <= i < n ==> values[i] == Nil
    ensures CountOf(values, n) == 1 ==> forall i :: 0 <= i < n && i != LastOf(values, n) ==> values[i] == Nil
  {
    if n > 0 {
      OnlyLast(values, n - 1);
    }
  }

  /** Basic data that starts with eight zero bytes, the empty code hash, and nothing else. */
  predicate IsEoA(values: Values) {
    && values[0] != Nil && values[0].Len() >= 8 && (forall j :: 0 <= j < 8 ==> values[0].bytes[j] == 0)
    && values[1] == Bytes(LeafNodes.EMPTY_CODE_HASH)
    && forall i :: 2 <= i < NODE_WIDTH ==> values[i] == Nil
  }

  /** The present values of the first `n`, one after the other. */
  function Children(values: Values, n: nat): seq<byte>
    requires n <= NODE_WIDTH
  {
    if n == 0 then []
    else Children(values, n - 1) + if values[n - 1] == Nil then [] else values[n - 1].bytes
  }

  function Serialized(codec: PointCodec, leaf: LeafData): seq<byte>
    requires Storable(leaf.values)
  {
    var count, last, words := CountOf(leaf.values, NODE_WIDTH), LastOf(leaf.values, NODE_WIDTH), AllPadded(leaf.values);
    if count == 1 then
      [SINGLE_SLOT_TYPE] + leaf.stem + codec.encode(if last < 128 then leaf.c1 else leaf.c2) + codec.encode(leaf.commitment)
      + [last] + (if words[last].Nil? then [] else words[last].bytes)
    else if IsEoA(leaf.values) then
      [EOA_TYPE] + leaf.stem + codec.encode(leaf.c1) + codec.encode(leaf.commitment) + words[0].bytes
    else
      [LEAF_TYPE] + leaf.stem + PackAll(BitsOf(leaf.values)) + codec.encode(leaf.commitment) + codec.encode(leaf.c1)
      + codec.encode(leaf.c2) + Children(words, NODE_WIDTH)
  }

  // ----- What is read ----------------------------------------------------

  /** SliceOutOfRange stands for the panic of a payload too short for its type. */
  datatype ParseError = TooShort | InvalidEncoding | BadPoint | SliceOutOfRange

  /** An internal node comes back with the slots that hold something and its commitment. */
  datatype Parsed = Ok(leaf: LeafData) | Inner(present: seq<bool>, commitment: Point) | Err(error: ParseError)

  /** The values a bit list announces, read off from `offset` on; none when the payload ends too early. */
  function ReadValues(s: seq<byte>, bitlist: seq<byte>, offset: nat, i: nat): (r: Option<seq<Value>>)
    requires i <= NODE_WIDTH
    ensures r.Some? ==> |r.value| == NODE_WIDTH - i
    decreases NODE_WIDTH - i
  {
    if i == NODE_WIDTH then Some([])
    else if Bit(bitlist, i) then
      if offset + LEAF_VALUE_SIZE > |s| then None
      else
        match ReadValues(s, bitlist, offset + LEAF_VALUE_SIZE, i + 1)
        case None => None
        case Some(rest) => Some([Bytes(s[offset..offset + LEAF_VALUE_SIZE])] + rest)
    else
      match ReadValues(s, bitlist, offset, i + 1)
      case None => None
      case Some(rest) => Some([Nil] + rest)
  }

  function ThreePoints(codec: PointCodec, stem: Stem, values: Values, c: PointBytes, c1: PointBytes, c2: PointBytes): Parsed {
    match codec.decode(c1)
    case None => Err(BadPoint)
    case Some(p1) =>
      match codec.decode(c2)
      case None => Err(BadPoint)
      case Some(p2) =>
        match codec.decode(c)
        case None => Err(BadPoint)
        case Some(p) => Ok(LeafData(stem, values, p, p1, p2))
  }

  function ParseLeaf(codec: PointCodec, s: seq<byte>): Parsed
    requires |s| >= 1 + POINT_SIZE
  {
    match ReadValues(s, s[BITLIST_OFFSET..COMMITMENT_OFFSET], CHILDREN_OFFSET, 0)
    case None => Err(TooShort)
    case Some(values) =>
      if |s| < CHILDREN_OFFSET then Err(TooShort)
      else ThreePoints(codec, s[STEM_OFFSET..BITLIST_OFFSET], values, s[COMMITMENT_OFFSET..C1_OFFSET],
                       s[C1_OFFSET..C2_OFFSET], s[C2_OFFSET..CHILDREN_OFFSET])
  }

  /** One half commitment and the leaf's; the other half is the identity. */
  function TwoPoints(codec: PointCodec, stem: Stem, values: Values, cn: PointBytes, c: PointBytes, first: bool): Parsed {
    match codec.decode(cn)
    case None => Err(BadPoint)
    case Some(pn) =>
      match codec.decode(c)
      case None => Err(BadPoint)
      case Some(p) => Ok(LeafData(stem, values, p, if first then pn else IDENTITY, if first then IDENTITY else pn))
  }

  function ParseEoA(codec: PointCodec, s: seq<byte>): Parsed {
    if |s| < EOA_SIZE then Err(SliceOutOfRange)
    else
      var values: Values := EmptyValues()[0 := Bytes(s[160..192])][1 := Bytes(LeafNodes.EMPTY_CODE_HASH)];
      TwoPoints(codec, s[1..32], values, s[32..96], s[96..160], true)
  }

  function ParseSingleSlot(codec: PointCodec, s: seq<byte>): Parsed {
    if |s| < SINGLE_SLOT_SIZE then Err(SliceOutOfRange)
    else TwoPoints(codec, s[1..32], EmptyValues()[s[160] := Bytes(s[161..193])], s[32..96], s[96..160], s[160] < 128)
  }

  /** The bits of a list, in order. */
  function BitsRead(bitlist: seq<byte>): (present: seq<bool>)
    ensures |present| == NODE_WIDTH && forall i :: 0 <= i < NODE_WIDTH ==> present[i] == Bit(bitlist, i)
  {
    seq(NODE_WIDTH, i requires 0 <= i < NODE_WIDTH => Bit(bitlist, i))
  }

  function ParseInternal(codec: PointCodec, bitlist: seq<byte>, raw: seq<byte>): Parsed {
    if |bitlist| != BITLIST_SIZE || |raw| != POINT_SIZE then Err(InvalidEncoding)
    else
      match codec.decode(raw)
      case None => Err(BadPoint)
      case Some(p) => Inner(BitsRead(bitlist), p)
  }

  function ParseNode(codec: PointCodec, s: seq<byte>): Parsed {
    if |s| < 1 + POINT_SIZE then Err(TooShort)
    else if s[0] == LEAF_TYPE then ParseLeaf(codec, s)
    else if s[0] == INTERNAL_TYPE then
      ParseInternal(codec, s[1..33], s[33..])
    else if s[0] == EOA_TYPE then ParseEoA(codec, s)
    else if s[0] == SINGLE_SLOT_TYPE then ParseSingleSlot(codec, s)
    else Err(InvalidEncoding)
  }

  // ----- Round trip ------------------------------------------------------

  lemma {:induction false} ChildrenPrefix(values: Values, i: nat, n: nat)
    requires i <= n <= NODE_WIDTH && WordSized(values)
    ensures |Children(values, i)| == LEAF_VALUE_SIZE * CountOf(values, i)
    ensures Children(values, i) <= Children(values, n)
    decreases n, i
  {
    if i < n {
      ChildrenPrefix(values, i, n - 1);
    } else if i > 0 {
      ChildrenPrefix(values, i - 1, i - 1);
    }
  }

  /** The value written at position `i`. */
  lemma ChildAt(s: seq<byte>, values: Values, i: nat)
    requires WordSized(values) && i < NODE_WIDTH && values[i] != Nil && |s| >= CHILDREN_OFFSET
    requires s[CHILDREN_OFFSET..] == Children(values, NODE_WIDTH)
    ensures var at := CHILDREN_OFFSET + |Children(values, i)|;
            at + LEAF_VALUE_SIZE <= |s| && Bytes(s[at..at + LEAF_VALUE_SIZE]) == values[i]
  {
    ChildrenPrefix(values, i + 1, NODE_WIDTH);
    assert Children(values, i + 1) == Children(values, i) + values[i].bytes;
    hide Children;
    SliceOfPrefix(s, CHILDREN_OFFSET, Children(values, i), values[i].bytes);
  }

  lemma SliceOfPrefix(s: seq<byte>, offset: nat, a: seq<byte>, b: seq<byte>)
    requires offset <= |s| && a + b <= s[offset..]
    ensures offset + |a| + |b| <= |s| && s[offset + |a|..offset + |a| + |b|] == b
  {
    var t := s[offset..];
    assert t[..|a + b|] == a + b;
    forall j | 0 <= j < |b| ensures s[offset + |a| + j] == b[j] {
      assert t[|a| + j] == (a + b)[|a| + j];
    }
  }

  /** What was written value by value is read back value by value. */
  lemma {:induction false} ReadBack(s: seq<byte>, values: Values, offset: nat, i: nat)
    requires WordSized(values) && i <= NODE_WIDTH && |s| >= CHILDREN_OFFSET
    requires s[CHILDREN_OFFSET..] == Children(values, NODE_WIDTH)
    requires offset == CHILDREN_OFFSET + |Children(values, i)|
    ensures ReadValues(s, PackAll(BitsOf(values)), offset, i) == Some(values[i..])
    decreases NODE_WIDTH - i
  {
    hide Bit, PackAll, BitsOf, ReadValues, Children;
    var bitlist := PackAll(BitsOf(values));
    if i == NODE_WIDTH {
      ReadNothing(s, bitlist, offset);
      assert values[i..] == [];
    } else {
      BitOfPacked(BitsOf(values), i);
      ChildrenStep(values, i);
      ReadStep(s, bitlist, offset, i);
      assert values[i..] == [values[i]] + values[i + 1..];
      if values[i] != Nil {
        ChildAt(s, values, i);
        ReadBack(s, values, offset + LEAF_VALUE_SIZE, i + 1);
      } else {
        ReadBack(s, values, offset, i + 1);
      }
    }
  }

  lemma ChildrenStep(values: Values, i: nat)
    requires i < NODE_WIDTH && WordSized(values)
    ensures |Children(values, i + 1)| == |Children(values, i)| + if values[i] == Nil then 0 else LEAF_VALUE_SIZE
  {
  }

  /** What comes back: the values filled up. */
  function Stored(leaf: LeafData): LeafData
    requires Storable(leaf.values)
  {
    leaf.(values := AllPadded(leaf.values))
  }

  lemma FullRoundTrip(codec: PointCodec, leaf: LeafData)
    requires Faithful(codec, leaf) && Storable(leaf.values)
    requires CountOf(leaf.values, NODE_WIDTH) != 1 && !IsEoA(leaf.values)
    ensures ParseNode(codec, Serialized(codec, leaf)) == Ok(Stored(leaf))
  {
    hide Pack, BitOf, Children, IsEoA, ReadValues, Padded;
    var s, words := Serialized(codec, leaf), AllPadded(leaf.values);
    var bits, c, c1, c2, ch := PackAll(BitsOf(leaf.values)), codec.encode(leaf.commitment), codec.encode(leaf.c1), codec.encode(leaf.c2),
      Children(words, NODE_WIDTH);
    assert s[1..32] == leaf.stem && s[32..64] == bits && s[64..128] == c && s[128..192] == c1 && s[192..256] == c2 && s[256..] == ch;
    NoChildren(words);
    PaddedSame(leaf.values);
    ReadBack(s, words, CHILDREN_OFFSET, 0);
    assert words[0..] == words;
  }

  lemma NoChildren(values: Values)
    ensures Children(values, 0) == []
  {
  }

  lemma EoARoundTrip(codec: PointCodec, leaf: LeafData)
    requires Faithful(codec, leaf) && Storable(leaf.values) && CacheHolds(leaf)
    requires CountOf(leaf.values, NODE_WIDTH) != 1 && IsEoA(leaf.values)
    ensures ParseNode(codec, Serialized(codec, leaf)) == Ok(Stored(leaf))
  {
    hide SuffixPoly, Commit, Padded;
    var s, words := Serialized(codec, leaf), AllPadded(leaf.values);
    var v := words[0].bytes;
    assert s[1..32] == leaf.stem && s[32..96] == codec.encode(leaf.c1) && s[96..160] == codec.encode(leaf.commitment) && s[160..192] == v;
    assert EmptyValues()[0 := Bytes(v)][1 := Bytes(LeafNodes.EMPTY_CODE_HASH)] == words;
    assert HalfEmpty(leaf.values, 128);
    EmptyHalfCommitsToIdentity(leaf.values, 128);
  }

  lemma SingleSlotBytes(codec: PointCodec, leaf: LeafData)
    requires Storable(leaf.values) && CountOf(leaf.values, NODE_WIDTH) == 1
    ensures var s, last, words := Serialized(codec, leaf), LastOf(leaf.values, NODE_WIDTH), AllPadded(leaf.values);
            && |s| == SINGLE_SLOT_SIZE && s[0] == SINGLE_SLOT_TYPE && s[1..32] == leaf.stem
            && s[32..96] == codec.encode(if last < 128 then leaf.c1 else leaf.c2)
            && s[96..160] == codec.encode(leaf.commitment) && s[160] == last
            && EmptyValues()[last := Bytes(s[161..193])] == words
  {
    hide CountOf, LastOf, IsEoA, Padded;
    var s, last, words := Serialized(codec, leaf), LastOf(leaf.values, NODE_WIDTH), AllPadded(leaf.values);
    var cn, v := codec.encode(if last < 128 then leaf.c1 else leaf.c2), words[last].bytes;
    assert s == [SINGLE_SLOT_TYPE] + leaf.stem + cn + codec.encode(leaf.commitment) + [last] + v;
    assert s[1..32] == leaf.stem && s[32..96] == cn && s[96..160] == codec.encode(leaf.commitment) && s[160] == last && s[161..193] == v;
    OnlyLast(leaf.values, NODE_WIDTH);
  }

  /** The single-slot form brings the leaf back exactly when the half commitment it omits is the identity. */
  lemma ShortFormDropsHalf(codec: PointCodec, leaf: LeafData)
    requires Faithful(codec, leaf) && Storable(leaf.values) && CountOf(leaf.values, NODE_WIDTH) == 1
    ensures var last := LastOf(leaf.values, NODE_WIDTH);
            ParseNode(codec, Serialized(codec, leaf)) == Ok(Stored(leaf))
            <==> (if last < 128 then leaf.c2 else leaf.c1) == IDENTITY
  {
    hide CountOf, LastOf, IsEoA, Serialized;
    SingleSlotBytes(codec, leaf);
  }

  lemma OtherHalfIsIdentity(leaf: LeafData)
    requires CacheHolds(leaf) && CountOf(leaf.values, NODE_WIDTH) == 1
    ensures (if LastOf(leaf.values, NODE_WIDTH) < 128 then leaf.c2 else leaf.c1) == IDENTITY
  {
    hide SuffixPoly, Commit, CountOf, LastOf;
    OnlyLast(leaf.values, NODE_WIDTH);
    var other := if LastOf(leaf.values, NODE_WIDTH) < 128 then 128 else 0;
    assert HalfEmpty(leaf.values, other);
    EmptyHalfCommitsToIdentity(leaf.values, other);
  }

  /** Parsing what was written gives the leaf back with its values filled up, in whichever of the three
      forms it was written; the half the short forms leave out is the identity because the leaf's cache
      holds. It is the leaf itself exactly when every value is nil or a full word. */
  lemma LeafRoundTrip(codec: PointCodec, leaf: LeafData)
    requires Faithful(codec, leaf) && Storable(leaf.values) && CacheHolds(leaf)
    ensures ParseNode(codec, Serialized(codec, leaf)) == Ok(Stored(leaf))
    ensures ParseNode(codec, Serialized(codec, leaf)) == Ok(leaf) <==> WordSized(leaf.values)
  {
    hide Serialized, ParseNode, CountOf, LastOf, IsEoA, AllPadded, CacheHolds;
    PaddedSame(leaf.values);
    if CountOf(leaf.values, NODE_WIDTH) == 1 {
      OtherHalfIsIdentity(leaf);
      ShortFormDropsHalf(codec, leaf);
    } else if IsEoA(leaf.values) {
      EoARoundTrip(codec, leaf);
    } else {
      FullRoundTrip(codec, leaf);
    }
  }

  // ----- Internal nodes --------------------------------------------------

  function SerializedInternal(codec: PointCodec, present: seq<bool>, commitment: Point): seq<byte>
    requires |present| == NODE_WIDTH
  {
    [INTERNAL_TYPE] + PackAll(present) + codec.encode(commitment)
  }

  /** Parsing a written internal node gives back which slots hold something, and the commitment. */
  lemma InternalRoundTrip(codec: PointCodec, present: seq<bool>, commitment: Point)
    requires |present| == NODE_WIDTH && FaithfulAt(codec, commitment)
    ensures ParseNode(codec, SerializedInternal(codec, present, commitment)) == Inner(present, commitment)
  {
    var s := SerializedInternal(codec, present, commitment);
    hide Bit, PackAll;
    assert s[1..33] == PackAll(present) && s[33..] == codec.encode(commitment);
    forall i | 0 <= i < NODE_WIDTH ensures BitsRead(PackAll(present))[i] == present[i] {
      BitOfPacked(present, i);
    }
    assert BitsRead(PackAll(present)) == present;
  }

  // ----- What is where -----------------------------------------------------

  /** Bit `i` of a list counts from the left of its byte. */
  lemma BitPlace(bitlist: seq<byte>, i: nat)
    requires |bitlist| == 32 && i < 256
    ensures var m := if i % 8 == 0 then 128 else if i % 8 == 1 then 64 else if i % 8 == 2 then 32 else if i % 8 == 3 then 16
                     else if i % 8 == 4 then 8 else if i % 8 == 5 then 4 else if i % 8 == 6 then 2 else 1;
            Bit(bitlist, i) <==> (bitlist[i / 8] / m) % 2 == 1
  {
  }

  /** 97 bytes: the type, a bit per slot, the commitment. */
  lemma InternalLayout(codec: PointCodec, present: seq<bool>, commitment: Point)
    requires |present| == NODE_WIDTH
    ensures var s := SerializedInternal(codec, present, commitment);
            && |s| == 97 && s[0] == 1 && s[33..97] == codec.encode(commitment)
            && forall i :: 0 <= i < 256 ==> (Bit(s[1..33], i) <==> present[i])
  {
    var s := SerializedInternal(codec, present, commitment);
    hide Bit, PackAll;
    assert s[1..33] == PackAll(present);
    forall i | 0 <= i < 256 ensures Bit(s[1..33], i) <==> present[i] {
      BitOfPacked(present, i);
    }
  }

  ghost predicate OnlyAt(values: Values, i: nat) {
    i < NODE_WIDTH && values[i] != Nil && forall j :: 0 <= j < NODE_WIDTH && j != i ==> values[j] == Nil
  }

  lemma {:induction false} CountedOnce(values: Values, n: nat, i: nat)
    requires i < n <= NODE_WIDTH && values[i] != Nil && forall j :: 0 <= j < n && j != i ==> values[j] == Nil
    ensures CountOf(values, n) == 1 && LastOf(values, n) == i
  {
    if i < n - 1 {
      CountedOnce(values, n - 1, i);
    } else {
      NoneCounted(values, i);
    }
  }

  lemma {:induction false} NoneCounted(values: Values, n: nat)
    requires n <= NODE_WIDTH && forall j :: 0 <= j < n ==> values[j] == Nil
    ensures CountOf(values, n) == 0
  {
    if n > 0 {
      NoneCounted(values, n - 1);
    }
  }

  /** A leaf with one value alone takes the first form: 193 bytes. */
  lemma SingleSlotLayout(codec: PointCodec, leaf: LeafData, i: byte)
    requires Storable(leaf.values) && OnlyAt(leaf.values, i)
    ensures var s := Serialized(codec, leaf);
            && |s| == 193 && s[0] == 4 && s[1..32] == leaf.stem
            && s[32..96] == codec.encode(if i < 128 then leaf.c1 else leaf.c2) && s[96..160] == codec.encode(leaf.commitment)
            && s[160] == i && Bytes(s[161..193]) == Padded(leaf.values[i])
  {
    CountedOnce(leaf.values, NODE_WIDTH, i);
    hide CountOf, LastOf, Serialized, Padded;
    SingleSlotBytes(codec, leaf);
    var s := Serialized(codec, leaf);
    assert EmptyValues()[i := Bytes(s[161..193])][i] == AllPadded(leaf.values)[i];
  }

  /** An account without code takes the second: 192 bytes. */
  lemma EoALayout(codec: PointCodec, leaf: LeafData)
    requires Storable(leaf.values) && leaf.values[0] != Nil && leaf.values[0].bytes[..8] == seq(8, _ => 0)
    requires leaf.values[1] == Bytes(LeafNodes.EMPTY_CODE_HASH) && forall i :: 2 <= i < NODE_WIDTH ==> leaf.values[i] == Nil
    ensures var s := Serialized(codec, leaf);
            && |s| == 192 && s[0] == 3 && s[1..32] == leaf.stem
            && s[32..96] == codec.encode(leaf.c1) && s[96..160] == codec.encode(leaf.commitment)
            && Bytes(s[160..192]) == Padded(leaf.values[0])
  {
    TwoCounted(leaf.values, NODE_WIDTH);
    hide CountOf, LastOf, Padded;
    assert forall j :: 0 <= j < 8 ==> leaf.values[0].bytes[j] == leaf.values[0].bytes[..8][j];
    assert IsEoA(leaf.values);
    var s, v := Serialized(codec, leaf), AllPadded(leaf.values)[0].bytes;
    assert s == [EOA_TYPE] + leaf.stem + codec.encode(leaf.c1) + codec.encode(leaf.commitment) + v;
    assert s[1..32] == leaf.stem && s[32..96] == codec.encode(leaf.c1) && s[96..160] == codec.encode(leaf.commitment) && s[160..192] == v;
  }

  lemma {:induction false} TwoCounted(values: Values, n: nat)
    requires 2 <= n <= NODE_WIDTH && values[0] != Nil && values[1] != Nil
    ensures CountOf(values, n) >= 2
  {
    if n > 2 {
      TwoCounted(values, n - 1);
    } else {
      assert CountOf(values, 1) == 1;
    }
  }

  /** The present values of the first `n`, as a set. */
  ghost function Present(values: Values, n: nat): set<nat>
    requires n <= NODE_WIDTH
  {
    set j: nat | j < n && values[j] != Nil
  }

  lemma {:induction false} CountIsCardinality(values: Values, n: nat)
    requires n <= NODE_WIDTH
    ensures CountOf(values, n) == |Present(values, n)|
  {
    if n > 0 {
      CountIsCardinality(values, n - 1);
      var last: nat := n - 1;
      assert Present(values, n) == if values[last] != Nil then Present(values, last) + {last} else Present(values, last);
    }
  }

  /** The value of slot `i` comes after the 256 bytes of the front and after the values of the slots before it. */
  ghost predicate ValueInPlace(s: seq<byte>, values: Values, i: nat)
    requires i < NODE_WIDTH && Storable(values)
  {
    var at := 256 + 32 * |Present(values, i)|;
    values[i] != Nil ==> at + 32 <= |s| && Bytes(s[at..at + 32]) == Padded(values[i])
  }

  /** Any other leaf takes the third: the type, the stem, a bit per value, three commitments, and the values. */
  lemma FullLayout(codec: PointCodec, leaf: LeafData)
    requires Storable(leaf.values) && !IsEoA(leaf.values) && forall i :: !OnlyAt(leaf.values, i)
    ensures var s := Serialized(codec, leaf);
            && |s| == 256 + 32 * |Present(leaf.values, NODE_WIDTH)| && s[0] == 2 && s[1..32] == leaf.stem
            && (forall i :: 0 <= i < 256 ==> (Bit(s[32..64], i) <==> leaf.values[i] != Nil))
            && s[64..128] == codec.encode(leaf.commitment) && s[128..192] == codec.encode(leaf.c1) && s[192..256] == codec.encode(leaf.c2)
            && forall i :: 0 <= i < 256 ==> ValueInPlace(s, leaf.values, i)
  {
    NotAlone(leaf.values);
    var s, words := Serialized(codec, leaf), AllPadded(leaf.values);
    var bits := BitsOf(leaf.values);
    FullBytes(codec, leaf);
    hide Pack, BitOf, Bit, PackAll, Children, IsEoA, Padded, CountOf, Serialized, ValueInPlace;
    forall i | 0 <= i < 256 ensures Bit(s[32..64], i) <==> leaf.values[i] != Nil {
      BitOfPacked(bits, i);
    }
    forall i | 0 <= i < 256 ensures ValueInPlace(s, leaf.values, i) {
      WordInPlace(s, leaf.values, i);
    }
    ChildrenPrefix(words, NODE_WIDTH, NODE_WIDTH);
    SameCount(leaf.values, NODE_WIDTH);
    CountIsCardinality(leaf.values, NODE_WIDTH);
    assert |s| == 256 + |s[256..]|;
  }

  lemma NotAlone(values: Values)
    requires forall i :: !OnlyAt(values, i)
    ensures CountOf(values, NODE_WIDTH) != 1
  {
    if CountOf(values, NODE_WIDTH) == 1 {
      OnlyLast(values, NODE_WIDTH);
      assert OnlyAt(values, LastOf(values, NODE_WIDTH));
    }
  }

  lemma FullBytes(codec: PointCodec, leaf: LeafData)
    requires Storable(leaf.values) && !IsEoA(leaf.values) && CountOf(leaf.values, NODE_WIDTH) != 1
    ensures var s := Serialized(codec, leaf);
            && |s| >= 256 && s[0] == 2 && s[1..32] == leaf.stem && s[32..64] == PackAll(BitsOf(leaf.values))
            && s[64..128] == codec.encode(leaf.commitment) && s[128..192] == codec.encode(leaf.c1) && s[192..256] == codec.encode(leaf.c2)
            && s[256..] == Children(AllPadded(leaf.values), NODE_WIDTH)
  {
    hide Pack, BitOf, Bit, PackAll, Children, IsEoA, Padded, CountOf, LastOf;
  }

  lemma {:induction false} SameCount(values: Values, n: nat)
    requires n <= NODE_WIDTH && Storable(values)
    ensures CountOf(AllPadded(values), n) == CountOf(values, n)
  {
    hide Padded;
    if n > 0 {
      SameCount(values, n - 1);
    }
  }

  lemma WordInPlace(s: seq<byte>, values: Values, i: nat)
    requires i < NODE_WIDTH && Storable(values) && |s| >= 256 && s[256..] == Children(AllPadded(values), NODE_WIDTH)
    ensures ValueInPlace(s, values, i)
  {
    hide Padded, Children, CountOf;
    var words := AllPadded(values);
    if values[i] != Nil {
      ChildAt(s, words, i);
      ChildrenPrefix(words, i, NODE_WIDTH);
      SameCount(values, i);
      CountIsCardinality(values, i);
    }
  }

  // ----- The loops -------------------------------------------------------

  /** serializeLeafWithUncompressedCommitments; a slice out of range is a panic. */
  method SerializeLeaf(codec: PointCodec, leaf: LeafData) returns (result: seq<byte>, panics: bool)
    ensures panics <==> !Storable(leaf.values)
    ensures !panics ==> result == Serialized(codec, leaf)
  {
    hide Pack, BitOf, SetBitOf, PackAll, Padded;
    var children, count, lastIdx, isEoA, bitlist;
    children, count, lastIdx, isEoA, bitlist, panics := ScanValues(leaf.values);
    if panics {
      return [], true;
    }
    var c, c1, c2 := codec.encode(leaf.commitment), codec.encode(leaf.c1), codec.encode(leaf.c2);
    if count == 1 {
      var v := Padded(leaf.values[lastIdx]);
      result := [SINGLE_SLOT_TYPE] + leaf.stem + (if lastIdx < 128 then c1 else c2) + c + [lastIdx] + (if v.Nil? then [] else v.bytes);
    } else if isEoA {
      result := [EOA_TYPE] + leaf.stem + c1 + c + Padded(leaf.values[0]).bytes;
    } else {
      result := [LEAF_TYPE] + leaf.stem + bitlist + c + c1 + c2 + children;
    }
  }

  /** The loop over the values. */
  method ScanValues(values: Values)
    returns (children: seq<byte>, count: nat, lastIdx: nat, isEoA: bool, bitlist: seq<byte>, panics: bool)
    ensures panics <==> !Storable(values)
    ensures !panics ==> children == Children(AllPadded(values), NODE_WIDTH) && (isEoA <==> IsEoA(values))
    ensures !panics ==> count == CountOf(values, NODE_WIDTH) && lastIdx == LastOf(values, NODE_WIDTH)
    ensures !panics ==> bitlist == PackAll(BitsOf(values))
  {
    hide Pack, BitOf, SetBitOf, Padded, EoASoFar, IsEoA;
    EoAFromStart(values, 0);
    children, count, lastIdx, isEoA, panics := [], 0, 0, true, false;
    bitlist := seq(BITLIST_SIZE, _ => 0);
    ghost var bits := seq(NODE_WIDTH, _ => false);
    AllClear(bitlist, bits);
    var i := 0;
    while i < NODE_WIDTH
      invariant 0 <= i <= NODE_WIDTH && |bits| == NODE_WIDTH
      invariant StorableUpTo(values, i)
      invariant children == PaddedChildren(values, i) && count == CountOf(values, i) && lastIdx == LastOf(values, i)
      invariant isEoA <==> EoASoFar(values, i)
      invariant bitlist == PackAll(bits) && forall j :: 0 <= j < NODE_WIDTH ==> bits[j] == (j < i && values[j] != Nil)
    {
      EoAFromStart(values, i);
      var v := values[i];
      if v != Nil {
        count := count + 1;
        lastIdx := i;
        bitlist := SetBit(bitlist, i, bits);
        bits := bits[i := true];
        if TooLong(v) {
          return children, count, lastIdx, isEoA, bitlist, true;
        }
        children := children + Padded(v).bytes;
      }
      if isEoA {
        isEoA, panics := LooksLikeEoA(values, i);
        if panics {
          return;
        }
      }
      i := i + 1;
    }
    assert bits == BitsOf(values);
    ChildrenArePadded(values, NODE_WIDTH);
  }

  predicate StorableUpTo(values: Values, n: nat)
    requires n <= NODE_WIDTH
  {
    && (forall i :: 0 <= i < n ==> !TooLong(values[i]))
    && (n > 0 ==> values[0] == Nil || values[0].Len() >= 8)
  }

  /** The present values of the first `n`, filled up. */
  function PaddedChildren(values: Values, n: nat): seq<byte>
    requires n <= NODE_WIDTH && StorableUpTo(values, n)
  {
    if n == 0 then []
    else PaddedChildren(values, n - 1) + if values[n - 1] == Nil then [] else Padded(values[n - 1]).bytes
  }

  lemma {:induction false} ChildrenArePadded(values: Values, n: nat)
    requires n <= NODE_WIDTH && Storable(values)
    ensures PaddedChildren(values, n) == Children(AllPadded(values), n)
  {
    hide Padded;
    if n > 0 {
      ChildrenArePadded(values, n - 1);
    }
  }

  /** The test of one value, which slices the first one. */
  method LooksLikeEoA(values: Values, i: nat) returns (isEoA: bool, panics: bool)
    requires i < NODE_WIDTH && EoASoFar(values, i)
    ensures panics <==> i == 0 && values[0] != Nil && values[0].Len() < 8
    ensures !panics ==> (isEoA <==> EoASoFar(values, i + 1))
  {
    var v := values[i];
    isEoA, panics := false, false;
    if i == 0 {
      panics := v != Nil && v.Len() < 8;
      if !panics {
        isEoA := v != Nil && v.bytes[..8] == seq(8, _ => 0);
      }
    } else if i == 1 {
      isEoA := v != Nil && v.bytes == LeafNodes.EMPTY_CODE_HASH;
    } else {
      isEoA := v == Nil;
    }
  }

  lemma EoAFromStart(values: Values, i: nat)
    requires i < NODE_WIDTH
    ensures EoASoFar(values, 0) && (EoASoFar(values, i + 1) ==> EoASoFar(values, i))
    ensures EoASoFar(values, NODE_WIDTH) <==> IsEoA(values)
  {
  }

  predicate EoASoFar(values: Values, n: nat)
    requires n <= NODE_WIDTH
  {
    && (n > 0 ==> values[0] != Nil && values[0].Len() >= 8 && forall j :: 0 <= j < 8 ==> values[0].bytes[j] == 0)
    && (n > 1 ==> values[1] == Bytes(LeafNodes.EMPTY_CODE_HASH))
    && forall i :: 2 <= i < n ==> values[i] == Nil
  }

  lemma AllClear(bitlist: seq<byte>, bits: seq<bool>)
    requires |bitlist| == BITLIST_SIZE && forall m :: 0 <= m < BITLIST_SIZE ==> bitlist[m] == 0
    requires |bits| == NODE_WIDTH && forall j :: 0 <= j < NODE_WIDTH ==> !bits[j]
    ensures bitlist == PackAll(bits)
  {
  }

  /** setBit. */
  method SetBit(bitlist: seq<byte>, index: nat, ghost bits: seq<bool>) returns (r: seq<byte>)
    requires index < NODE_WIDTH && |bits| == NODE_WIDTH && bitlist == PackAll(bits)
    ensures r == PackAll(bits[index := true])
  {
    hide Pack, BitOf;
    var m, k := index / 8, index % 8;
    PackSet(bits[8 * m..8 * m + 8], k);
    ghost var bits' := bits[index := true];
    assert bits'[8 * m..8 * m + 8] == bits[8 * m..8 * m + 8][k := true];
    var b := SetBitOf(bitlist[m], k);
    assert b == Pack(bits'[8 * m..8 * m + 8]);
    r := bitlist[m := b];
    forall x | 0 <= x < BITLIST_SIZE ensures r[x] == PackAll(bits')[x] {
      if x != m {
        assert bits'[8 * x..8 * x + 8] == bits[8 * x..8 * x + 8];
      }
    }
  }

  /** parseLeafNode: the values announced by the bit list, then the three commitments. */
  method ParseLeafNode(codec: PointCodec, serialized: seq<byte>) returns (r: Parsed)
    requires |serialized| >= 1 + POINT_SIZE
    ensures r == ParseLeaf(codec, serialized)
  {
    hide ReadValues, ThreePoints;
    var bitlist := serialized[BITLIST_OFFSET..BITLIST_OFFSET + BITLIST_SIZE];
    var values, short := ReadAnnounced(serialized, bitlist);
    if short {
      return Err(TooShort);
    }
    if |serialized| - COMMITMENT_OFFSET < 3 * POINT_SIZE {
      return Err(TooShort);
    }
    r := ThreePoints(codec, serialized[STEM_OFFSET..BITLIST_OFFSET], values, serialized[COMMITMENT_OFFSET..C1_OFFSET],
                     serialized[C1_OFFSET..C2_OFFSET], serialized[C2_OFFSET..CHILDREN_OFFSET]);
  }

  /** The loop over the bit list. */
  method ReadAnnounced(serialized: seq<byte>, bitlist: seq<byte>) returns (values: Values, short: bool)
    ensures short <==> ReadValues(serialized, bitlist, CHILDREN_OFFSET, 0).None?
    ensures !short ==> ReadValues(serialized, bitlist, CHILDREN_OFFSET, 0).value == values
  {
    hide Bit, ReadValues;
    values := EmptyValues();
    var offset: nat := CHILDREN_OFFSET;
    ghost var all := ReadValues(serialized, bitlist, offset, 0);
    assert all.Some? ==> values[..0] + all.value == all.value;
    var i := 0;
    while i < NODE_WIDTH
      invariant 0 <= i <= NODE_WIDTH
      invariant forall j :: i <= j < NODE_WIDTH ==> values[j] == Nil
      invariant all == Prepend(values[..i], ReadValues(serialized, bitlist, offset, i))
    {
      ReadStep(serialized, bitlist, offset, i);
      ghost var before := values;
      if Bit(bitlist, i) {
        if offset + LEAF_VALUE_SIZE > |serialized| {
          return values, true;
        }
        values := values[i := Bytes(serialized[offset..offset + LEAF_VALUE_SIZE])];
        offset := offset + LEAF_VALUE_SIZE;
      }
      assert values[..i + 1] == before[..i] + [values[i]];
      PrependTwice(before[..i], [values[i]], ReadValues(serialized, bitlist, offset, i + 1));
      i := i + 1;
    }
    ReadNothing(serialized, bitlist, offset);
    assert values[..i] + [] == values;
    short := false;
  }

  function Prepend(a: seq<Value>, r: Option<seq<Value>>): Option<seq<Value>> {
    if r.None? then None else Some(a + r.value)
  }

  lemma PrependTwice(a: seq<Value>, b: seq<Value>, r: Option<seq<Value>>)
    ensures Prepend(a, Prepend(b, r)) == Prepend(a + b, r)
  {
    if r.Some? {
      assert a + (b + r.value) == (a + b) + r.value;
    }
  }

  lemma ReadStep(s: seq<byte>, bitlist: seq<byte>, offset: nat, i: nat)
    requires i < NODE_WIDTH
    ensures ReadValues(s, bitlist, offset, i)
         == if !Bit(bitlist, i) then Prepend([Nil], ReadValues(s, bitlist, offset, i + 1))
            else if offset + LEAF_VALUE_SIZE > |s| then None
            else Prepend([Bytes(s[offset..offset + LEAF_VALUE_SIZE])], ReadValues(s, bitlist, offset + LEAF_VALUE_SIZE, i + 1))
  {
    hide Bit;
  }

  lemma ReadNothing(s: seq<byte>, bitlist: seq<byte>, offset: nat)
    ensures ReadValues(s, bitlist, offset, NODE_WIDTH) == Some([])
  {
  }

  /** Serialize of an internal node: a bit for every slot that holds something. */
  method SerializeInternal(codec: PointCodec, n: InternalNodes.InternalNode) returns (ret: seq<byte>)
    requires |n.children| == NODE_WIDTH
    ensures ret == SerializedInternal(codec, Occupied(n), n.commitment)
  {
    hide Pack, BitOf, SetBitOf, PackAll;
    var bitlist: seq<byte> := seq(BITLIST_SIZE, _ => 0);
    ghost var bits := seq(NODE_WIDTH, _ => false);
    AllClear(bitlist, bits);
    var i := 0;
    while i < NODE_WIDTH
      invariant 0 <= i <= NODE_WIDTH && |bits| == NODE_WIDTH && bitlist == PackAll(bits)
      invariant forall j :: 0 <= j < NODE_WIDTH ==> bits[j] == (j < i && !n.children[j].EmptyChild?)
    {
      if !n.children[i].EmptyChild? {
        bitlist := SetBit(bitlist, i, bits);
        bits := bits[i := true];
      }
      i := i + 1;
    }
    assert bits == Occupied(n);
    ret := [INTERNAL_TYPE] + bitlist + codec.encode(n.commitment);
  }

  function Occupied(n: InternalNodes.InternalNode): (present: seq<bool>)
    requires |n.children| == NODE_WIDTH
    reads n
    ensures |present| == NODE_WIDTH && forall i :: 0 <= i < NODE_WIDTH ==> present[i] == !n.children[i].EmptyChild?
  {
    seq(NODE_WIDTH, i requires 0 <= i < NODE_WIDTH && |n.children| == NODE_WIDTH reads n => !n.children[i].EmptyChild?)
  }

  /** CreateInternalNode: a placeholder for every set bit, Empty for the others. */
  method CreateInternalNode(codec: PointCodec, bitlist: seq<byte>, raw: seq<byte>) returns (r: Parsed)
    ensures r == ParseInternal(codec, bitlist, raw)
  {
    hide Bit;
    if |bitlist| != BITLIST_SIZE {
      return Err(InvalidEncoding);
    }
    var present := seq(NODE_WIDTH, _ => false);
    var i := 0;
    while i < BITLIST_SIZE
      invariant 0 <= i <= BITLIST_SIZE && |present| == NODE_WIDTH
      invariant forall k :: 0 <= k < 8 * i ==> present[k] == Bit(bitlist, k)
    {
      var j := 0;
      while j < 8
        invariant 0 <= j <= 8 && |present| == NODE_WIDTH
        invariant forall k :: 0 <= k < 8 * i + j ==> present[k] == Bit(bitlist, k)
      {
        BitInByte(bitlist, i, j);
        present := present[8 * i + j := BitOf(bitlist[i], j)];
        j := j + 1;
      }
      i := i + 1;
    }
    if |raw| != POINT_SIZE {
      return Err(InvalidEncoding);
    }
    assert present == BitsRead(bitlist);
    match codec.decode(raw) {
      case None => r := Err(BadPoint);
      case Some(p) => r := Inner(present, p);
    }
  }

  lemma BitInByte(bitlist: seq<byte>, i: nat, j: nat)
    requires i < |bitlist| && j < 8
    ensures Bit(bitlist, 8 * i + j) <==> BitOf(bitlist[i], j)
  {
    assert (8 * i + j) / 8 == i && (8 * i + j) % 8 == j;
  }

  /** parseSingleSlotNode: an offset runs over the payload. */
  method ParseSingleSlotNode(codec: PointCodec, serialized: seq<byte>) returns (r: Parsed)
    ensures r == ParseSingleSlot(codec, serialized)
  {
    if |serialized| < SINGLE_SLOT_SIZE {
      return Err(SliceOutOfRange);
    }
    var offset: nat := STEM_OFFSET;
    var stem := serialized[offset..offset + STEM_SIZE];
    offset := offset + STEM_SIZE;
    var cnCommBytes := serialized[offset..offset + POINT_SIZE];
    offset := offset + POINT_SIZE;
    var rootCommBytes := serialized[offset..offset + POINT_SIZE];
    offset := offset + POINT_SIZE;
    var idx := serialized[offset];
    offset := offset + 1;
    var values: Values := EmptyValues()[idx := Bytes(serialized[offset..offset + LEAF_VALUE_SIZE])];
    r := TwoPoints(codec, stem, values, cnCommBytes, rootCommBytes, idx < 128);
  }

  /** A leaf node of the tree, as it is written. */
  function DataOf(l: LeafNodes.LeafNode): LeafData
    requires l.Ready()
    reads l
  {
    LeafData(l.stem, l.values, l.commitment, l.c1.point, l.c2.point)
  }

  /** Any leaf the tree keeps up to date survives being written and read, if it can be written. */
  lemma StoredLeafRoundTrip(codec: PointCodec, l: LeafNodes.LeafNode)
    requires l.Synced() && l.Ready() && Faithful(codec, DataOf(l)) && Storable(l.values)
    ensures ParseNode(codec, Serialized(codec, DataOf(l))) == Ok(Stored(DataOf(l)))
    ensures ParseNode(codec, Serialized(codec, DataOf(l))) == Ok(DataOf(l)) <==> WordSized(l.values)
  {
    hide Serialized, ParseNode, C1, C2;
    LeafRoundTrip(codec, DataOf(l));
  }
}
