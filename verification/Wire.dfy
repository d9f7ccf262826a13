/** The state diff a proof travels with: keys grouped by stem, values as optional 32-byte words. */
module Wire {
  import opened Pedersen
  import opened VerkleTypes
  import opened ByteOrder
  import opened Multiproof
  import opened ProofPlan
  import opened Rebuild
  import opened RoundTrip
  import opened Stateless
  import Trie

  type Word = s: seq<byte> | |s| == 32 witness seq(32, _ => 0)

  datatype MaybeWord = NoWord | SomeWord(word: Word)

  datatype SuffixDiff = SuffixDiff(suffix: byte, current: MaybeWord, new_: MaybeWord)

  datatype StemDiff = StemDiff(stem: Stem, diffs: seq<SuffixDiff>)

  /** A value on the wire: null when empty, padded with zeros up to 32 bytes otherwise. */
  function ToWord(v: Value): MaybeWord
    requires v.Len() <= 32
  {
    if v.Len() == 0 then NoWord else SomeWord(v.bytes + seq(32 - |v.bytes|, _ => 0))
  }

  function FromWord(w: MaybeWord): Value {
    if w.NoWord? then Nil else Bytes(w.word)
  }

  /** The word form of a value, and the condition under which it is the value itself. */
  predicate WordSized(v: Value) {
    v == Nil || v.Len() == 32
  }

  lemma WordRoundTrip(v: Value)
    requires v.Len() <= 32
    ensures FromWord(ToWord(v)) == v <==> WordSized(v)
  {
  }

  predicate Fits(vs: seq<Value>) {
    forall j :: 0 <= j < |vs| ==> vs[j].Len() <= 32
  }

  predicate AllWordSized(vs: seq<Value>) {
    forall j :: 0 <= j < |vs| ==> WordSized(vs[j])
  }

  /** The loop of SerializeProof over the keys. */
  function ToDiff(ks: Keys, pre: seq<Value>, post: seq<Value>): (d: seq<StemDiff>)
    requires |ks| == |pre| == |post| && Fits(pre) && Fits(post)
    ensures ks != [] ==> d != [] && d[|d| - 1].stem == KeyToStem(ks[|ks| - 1])
  {
    if ks == [] then []
    else
      var n := |ks| - 1;
      var before := ToDiff(ks[..n], pre[..n], post[..n]);
      var s, sd := KeyToStem(ks[n]), SuffixDiff(Suffix(ks[n]), ToWord(pre[n]), ToWord(post[n]));
      if before != [] && before[|before| - 1].stem == s then
        before[|before| - 1 := StemDiff(s, before[|before| - 1].diffs + [sd])]
      else before + [StemDiff(s, [sd])]
  }

  /** Keys, pre-values and post-values read back from one stem's entries. */
  datatype Rows = Rows(keys: Keys, pre: seq<Value>, post: seq<Value>)

  function Append(a: Rows, b: Rows): Rows {
    Rows(a.keys + b.keys, a.pre + b.pre, a.post + b.post)
  }

  function StemRows(stem: Stem, diffs: seq<SuffixDiff>): Rows {
    if diffs == [] then Rows([], [], [])
    else
      var d := diffs[|diffs| - 1];
      Append(StemRows(stem, diffs[..|diffs| - 1]), Rows([MakeKey(stem, d.suffix)], [FromWord(d.current)], [FromWord(d.new_)]))
  }

  /** The loop of DeserializeProof. */
  function FromDiff(sd: seq<StemDiff>): Rows {
    if sd == [] then Rows([], [], [])
    else Append(FromDiff(sd[..|sd| - 1]), StemRows(sd[|sd| - 1].stem, sd[|sd| - 1].diffs))
  }

  function Reworded(vs: seq<Value>): (r: seq<Value>)
    requires Fits(vs)
    ensures |r| == |vs| && forall j :: 0 <= j < |vs| ==> r[j] == FromWord(ToWord(vs[j]))
  {
    seq(|vs|, j requires 0 <= j < |vs| => FromWord(ToWord(vs[j])))
  }

  lemma AppendAssociates(a: Rows, b: Rows, c: Rows)
    ensures Append(Append(a, b), c) == Append(a, Append(b, c))
  {
  }

  /** Flattening the diff gives the keys back in order, and every value in its word form. */
  lemma {:induction false} DiffRoundTrip(ks: Keys, pre: seq<Value>, post: seq<Value>)
    requires |ks| == |pre| == |post| && Fits(pre) && Fits(post)
    ensures FromDiff(ToDiff(ks, pre, post)) == Rows(ks, Reworded(pre), Reworded(post))
  {
    if ks != [] {
      var n := |ks| - 1;
      var before := ToDiff(ks[..n], pre[..n], post[..n]);
      DiffRoundTrip(ks[..n], pre[..n], post[..n]);
      var row := Rows([ks[n]], [FromWord(ToWord(pre[n]))], [FromWord(ToWord(post[n]))]);
      var sd := SuffixDiff(Suffix(ks[n]), ToWord(pre[n]), ToWord(post[n]));
      assert MakeKey(KeyToStem(ks[n]), Suffix(ks[n])) == ks[n];
      RowAppended(before, KeyToStem(ks[n]), sd);
      hide ToDiff, FromDiff, ToWord, FromWord;
      ReadBack(ks, pre, post, row);
    }
  }

  lemma ReadBack(ks: Keys, pre: seq<Value>, post: seq<Value>, row: Rows)
    requires |ks| == |pre| == |post| && Fits(pre) && Fits(post) && ks != []
    requires var n := |ks| - 1; row == Rows([ks[n]], [FromWord(ToWord(pre[n]))], [FromWord(ToWord(post[n]))])
    ensures var n := |ks| - 1;
            Append(Rows(ks[..n], Reworded(pre[..n]), Reworded(post[..n])), row) == Rows(ks, Reworded(pre), Reworded(post))
  {
    hide ToWord, FromWord;
    var n := |ks| - 1;
    assert ks == ks[..n] + [ks[n]];
    assert Reworded(pre) == Reworded(pre[..n]) + [FromWord(ToWord(pre[n]))];
    assert Reworded(post) == Reworded(post[..n]) + [FromWord(ToWord(post[n]))];
  }

  lemma RowAppended(before: seq<StemDiff>, s: Stem, sd: SuffixDiff)
    ensures var row := Rows([MakeKey(s, sd.suffix)], [FromWord(sd.current)], [FromWord(sd.new_)]);
            && FromDiff(before + [StemDiff(s, [sd])]) == Append(FromDiff(before), row)
            && (before != [] && before[|before| - 1].stem == s ==>
                  FromDiff(before[|before| - 1 := StemDiff(s, before[|before| - 1].diffs + [sd])]) == Append(FromDiff(before), row))
  {
    hide FromWord;
    var row := Rows([MakeKey(s, sd.suffix)], [FromWord(sd.current)], [FromWord(sd.new_)]);
    var one := before + [StemDiff(s, [sd])];
    assert one[..|one| - 1] == before && [sd][..0] == [];
    assert StemRows(s, [sd]) == row;
    if before != [] && before[|before| - 1].stem == s {
      var m := |before| - 1;
      var diffs := before[m].diffs;
      var two := before[m := StemDiff(s, diffs + [sd])];
      assert two[..m] == before[..m] && (diffs + [sd])[..|diffs|] == diffs;
      AppendAssociates(FromDiff(before[..m]), StemRows(s, diffs), row);
    }
  }

  /** The proof survives the wire unchanged exactly when every value is nil or has 32 bytes. */
  lemma ProofSurvivesWire(ks: Keys, pre: seq<Value>, post: seq<Value>)
    requires |ks| == |pre| == |post| && Fits(pre) && Fits(post)
    ensures FromDiff(ToDiff(ks, pre, post)) == Rows(ks, pre, post) <==> AllWordSized(pre) && AllWordSized(post)
  {
    DiffRoundTrip(ks, pre, post);
    RewordedSame(pre);
    RewordedSame(post);
  }

  lemma RewordedSame(vs: seq<Value>)
    requires Fits(vs)
    ensures Reworded(vs) == vs <==> AllWordSized(vs)
  {
    forall j | 0 <= j < |vs| ensures Reworded(vs)[j] == vs[j] <==> WordSized(vs[j]) {
      WordRoundTrip(vs[j]);
    }
    if Reworded(vs) == vs {
      assert forall j :: 0 <= j < |vs| ==> Reworded(vs)[j] == vs[j];
    }
  }

  function DiffStems(sd: seq<StemDiff>): (r: seq<Stem>)
    ensures |r| == |sd| && forall j :: 0 <= j < |sd| ==> r[j] == sd[j].stem
  {
    seq(|sd|, j requires 0 <= j < |sd| => sd[j].stem)
  }

  /** One group per stem; for sorted keys the stems are distinct, and a proof has one extension
      status for each. */
  lemma {:induction false} GroupsAreStems(ks: Keys, pre: seq<Value>, post: seq<Value>)
    requires |ks| == |pre| == |post| && Fits(pre) && Fits(post)
    ensures DiffStems(ToDiff(ks, pre, post)) == Stems(ks)
  {
    if ks != [] {
      var n := |ks| - 1;
      GroupsAreStems(ks[..n], pre[..n], post[..n]);
      var before := ToDiff(ks[..n], pre[..n], post[..n]);
      assert before != [] ==> DiffStems(before)[|before| - 1] == before[|before| - 1].stem;
      hide ToWord;
      assert DiffStems(ToDiff(ks, pre, post)) == Stems(ks);
    }
  }

  lemma OneStatusPerStem(root: Node, ks: Keys, pre: seq<Value>, post: seq<Value>)
    requires Placed(root, []) && SortedKeys(ks) && |ks| == |pre| == |post| && Fits(pre) && Fits(post)
    ensures |ProofOf(root, ks, post).extStatus| == |ToDiff(ks, pre, post)|
    ensures StrictlySorted(DiffStems(ToDiff(ks, pre, post)))
  {
    GroupsAreStems(ks, pre, post);
    StemsSorted(ks);
  }

  /** A word is absent for an empty value; otherwise it is the value's bytes, filled up with zeros. */
  lemma WordMeans(v: Value)
    requires v.Len() <= 32
    ensures ToWord(v) == NoWord <==> v.Len() == 0
    ensures v.Len() > 0 ==> forall i :: 0 <= i < 32 ==> ToWord(v).word[i] == if i < |v.bytes| then v.bytes[i] else 0
  {
  }

  /** One line of a state diff, with the stem of its group. */
  datatype Line = Line(stem: Stem, suffix: byte, current: MaybeWord, new_: MaybeWord)

  function GroupLines(stem: Stem, diffs: seq<SuffixDiff>): (r: seq<Line>)
    ensures |r| == |diffs| && forall i :: 0 <= i < |r| ==> r[i] == Line(stem, diffs[i].suffix, diffs[i].current, diffs[i].new_)
  {
    seq(|diffs|, i requires 0 <= i < |diffs| => Line(stem, diffs[i].suffix, diffs[i].current, diffs[i].new_))
  }

  function Lines(sd: seq<StemDiff>): seq<Line> {
    if sd == [] then [] else Lines(sd[..|sd| - 1]) + GroupLines(sd[|sd| - 1].stem, sd[|sd| - 1].diffs)
  }

  lemma LineAdded(before: seq<StemDiff>, s: Stem, d: SuffixDiff)
    ensures var e := Line(s, d.suffix, d.current, d.new_);
            && Lines(before + [StemDiff(s, [d])]) == Lines(before) + [e]
            && (before != [] && before[|before| - 1].stem == s ==>
                  Lines(before[|before| - 1 := StemDiff(s, before[|before| - 1].diffs + [d])]) == Lines(before) + [e])
  {
    var one := before + [StemDiff(s, [d])];
    assert one[..|one| - 1] == before;
    if before != [] && before[|before| - 1].stem == s {
      var m := |before| - 1;
      var two := before[m := StemDiff(s, before[m].diffs + [d])];
      assert two[..m] == before[..m];
      assert GroupLines(s, before[m].diffs + [d]) == GroupLines(s, before[m].diffs) + [Line(s, d.suffix, d.current, d.new_)];
    }
  }

  /** The lines of a state diff are the keys in order, each with the words of its old and its new value. */
  lemma {:induction false} DiffLines(ks: Keys, pre: seq<Value>, post: seq<Value>, j: nat)
    requires |ks| == |pre| == |post| && Fits(pre) && Fits(post)
    ensures var es := Lines(ToDiff(ks, pre, post));
            |es| == |ks| && (j < |ks| ==> es[j] == Line(ks[j][..31], ks[j][31], ToWord(pre[j]), ToWord(post[j])))
  {
    if ks != [] {
      var n := |ks| - 1;
      DiffLines(ks[..n], pre[..n], post[..n], j);
      var before := ToDiff(ks[..n], pre[..n], post[..n]);
      LineAdded(before, KeyToStem(ks[n]), SuffixDiff(Suffix(ks[n]), ToWord(pre[n]), ToWord(post[n])));
      hide ToWord, Lines;
    }
  }

  // ----- The loops -------------------------------------------------------

  /** The part of SerializeProof that makes the state diff.  A value longer than 32 bytes overruns the
      32-byte buffer: a panic. */
  method SerializeDiff(ks: Keys, pre: seq<Value>, post: seq<Value>) returns (statediff: seq<StemDiff>, panics: bool)
    requires |ks| == |pre| == |post|
    ensures panics <==> !(Fits(pre) && Fits(post))
    ensures !panics ==> statediff == ToDiff(ks, pre, post)
  {
    hide ToWord;
    statediff, panics := [], false;
    var i := 0;
    while i < |ks|
      invariant 0 <= i <= |ks| && Fits(pre[..i]) && Fits(post[..i]) && !panics
      invariant statediff == ToDiff(ks[..i], pre[..i], post[..i])
    {
      if pre[i].Len() > 32 || post[i].Len() > 32 {
        return [], true;
      }
      FitsNext(pre, i);
      FitsNext(post, i);
      assert ks[..i + 1][..i] == ks[..i] && pre[..i + 1][..i] == pre[..i] && post[..i + 1][..i] == post[..i];
      var stem := KeyToStem(ks[i]);
      ghost var before := statediff;
      if |statediff| == 0 || statediff[|statediff| - 1].stem != stem {
        statediff := statediff + [StemDiff(stem, [])];
      }
      var last := |statediff| - 1;
      var newsd := SuffixDiff(Suffix(ks[i]), WordOf(pre[i]), WordOf(post[i]));
      statediff := statediff[last := StemDiff(statediff[last].stem, statediff[last].diffs + [newsd])];
      assert [] + [newsd] == [newsd];
      assert statediff == before + [StemDiff(stem, [newsd])] || statediff == before[last := statediff[last]];
      i := i + 1;
    }
    assert ks[..i] == ks && pre[..i] == pre && post[..i] == post;
  }

  lemma FitsNext(vs: seq<Value>, i: nat)
    requires i < |vs| && Fits(vs[..i]) && vs[i].Len() <= 32
    ensures Fits(vs[..i + 1])
  {
    assert forall j :: 0 <= j < i ==> vs[..i + 1][j] == vs[..i][j];
  }

  /** The three cases of the source: empty, exactly 32 bytes, shorter. */
  function WordOf(v: Value): (w: MaybeWord)
    requires v.Len() <= 32
    ensures w == ToWord(v)
  {
    if v.Len() == 0 then NoWord
    else if v.Len() == 32 then
      assert v.bytes + seq(32 - |v.bytes|, _ => 0) == v.bytes;
      SomeWord(v.bytes)
    else SomeWord(v.bytes + seq(32 - |v.bytes|, _ => 0))
  }

  lemma RowsGrow(before: Rows, stem: Stem, diffs: seq<SuffixDiff>, j: nat)
    requires j < |diffs|
    ensures var rows, d := Append(before, StemRows(stem, diffs[..j])), diffs[j];
            Append(before, StemRows(stem, diffs[..j + 1]))
            == Rows(rows.keys + [MakeKey(stem, d.suffix)], rows.pre + [FromWord(d.current)], rows.post + [FromWord(d.new_)])
  {
    assert diffs[..j + 1][..j] == diffs[..j];
    AppendAssociates(before, StemRows(stem, diffs[..j]),
                     Rows([MakeKey(stem, diffs[j].suffix)], [FromWord(diffs[j].current)], [FromWord(diffs[j].new_)]));
  }

  lemma NoRows(before: Rows, stem: Stem)
    ensures Append(before, StemRows(stem, [])) == before
  {
  }

  /** The part of DeserializeProof that reads keys and values. */
  method DeserializeDiff(statediff: seq<StemDiff>) returns (keys: Keys, pre: seq<Value>, post: seq<Value>)
    ensures Rows(keys, pre, post) == FromDiff(statediff)
  {
    hide StemRows, Append;
    keys, pre, post := [], [], [];
    var i := 0;
    while i < |statediff|
      invariant 0 <= i <= |statediff| && Rows(keys, pre, post) == FromDiff(statediff[..i])
    {
      var stem, diffs := statediff[i].stem, statediff[i].diffs;
      ghost var before := Rows(keys, pre, post);
      NoRows(before, stem);
      assert diffs[..0] == [];
      var j := 0;
      while j < |diffs|
        invariant 0 <= j <= |diffs| && Rows(keys, pre, post) == Append(before, StemRows(stem, diffs[..j]))
      {
        RowsGrow(before, stem, diffs, j);
        keys := keys + [MakeKey(stem, diffs[j].suffix)];
        pre := pre + [if diffs[j].current.SomeWord? then Bytes(diffs[j].current.word) else Nil];
        post := post + [if diffs[j].new_.SomeWord? then Bytes(diffs[j].new_.word) else Nil];
        j := j + 1;
      }
      assert diffs[..j] == diffs;
      assert statediff[..i + 1][..i] == statediff[..i];
      i := i + 1;
    }
    assert statediff[..i] == statediff;
  }

  // ----- Across the wire -------------------------------------------------

  type Compressed = s: seq<byte> | |s| == 32 witness seq(32, _ => 0)

  datatype MaybePoint = NoPoint | SomePoint(point: Point)

  /** Compressed points on the wire. */
  datatype PointCodec = PointCodec(encode: Point -> Compressed, decode: Compressed -> MaybePoint)

  predicate Faithful(codec: PointCodec, ps: seq<Point>) {
    forall i :: 0 <= i < |ps| ==> codec.decode(codec.encode(ps[i])) == SomePoint(ps[i])
  }

  /** The serialized proof without the multipoint argument. */
  datatype VerkleProof = VerkleProof(otherStems: seq<Stem>, depthExtensionPresent: seq<byte>, commitmentsByPath: seq<Compressed>)

  datatype Received = Received(proof: Proof) | BadPoint

  function EncodeAll(codec: PointCodec, ps: seq<Point>): (r: seq<Compressed>)
    ensures |r| == |ps| && forall i :: 0 <= i < |ps| ==> r[i] == codec.encode(ps[i])
  {
    seq(|ps|, i requires 0 <= i < |ps| => codec.encode(ps[i]))
  }

  /** SerializeProof. */
  method SerializeProof(codec: PointCodec, proof: Proof) returns (vp: VerkleProof, statediff: seq<StemDiff>, panics: bool)
    requires |proof.keys| == |proof.preValues| == |proof.postValues|
    ensures panics <==> !(Fits(proof.preValues) && Fits(proof.postValues))
    ensures !panics ==> statediff == ToDiff(proof.keys, proof.preValues, proof.postValues)
    ensures vp == VerkleProof(proof.poaStems, proof.extStatus, EncodeAll(codec, proof.cs))
  {
    var cbp: seq<Compressed> := [];
    var i := 0;
    while i < |proof.cs|
      invariant 0 <= i <= |proof.cs| && cbp == EncodeAll(codec, proof.cs[..i])
    {
      cbp := cbp + [codec.encode(proof.cs[i])];
      i := i + 1;
      assert proof.cs[..i][..i - 1] == proof.cs[..i - 1];
    }
    assert proof.cs[..i] == proof.cs;
    statediff, panics := SerializeDiff(proof.keys, proof.preValues, proof.postValues);
    vp := VerkleProof(proof.poaStems, proof.extStatus, cbp);
  }

  /** DeserializeProof: an error for the first commitment that does not decode. */
  method DeserializeProof(codec: PointCodec, vp: VerkleProof, statediff: seq<StemDiff>) returns (r: Received)
    ensures r.BadPoint? <==> exists i :: 0 <= i < |vp.commitmentsByPath| && codec.decode(vp.commitmentsByPath[i]).NoPoint?
    ensures r.Received? ==>
      var p, rows := r.proof, FromDiff(statediff);
      && p.extStatus == vp.depthExtensionPresent && p.poaStems == vp.otherStems
      && p.keys == rows.keys && p.preValues == rows.pre && p.postValues == rows.post
      && |p.cs| == |vp.commitmentsByPath|
      && forall i :: 0 <= i < |p.cs| ==> codec.decode(vp.commitmentsByPath[i]) == SomePoint(p.cs[i])
  {
    var commitments: seq<Point> := [];
    var i := 0;
    while i < |vp.commitmentsByPath|
      invariant 0 <= i <= |vp.commitmentsByPath| && |commitments| == i
      invariant forall j :: 0 <= j < i ==> codec.decode(vp.commitmentsByPath[j]) == SomePoint(commitments[j])
    {
      var commitment := codec.decode(vp.commitmentsByPath[i]);
      if commitment.NoPoint? {
        return BadPoint;
      }
      commitments := commitments + [commitment.point];
      i := i + 1;
    }
    var keys, pre, post := DeserializeDiff(statediff);
    r := Received(Proof(vp.depthExtensionPresent, commitments, vp.otherStems, keys, pre, post));
  }

  /** What the receiver of a proof gets: the same statuses, commitments, stems and keys, and the values in
      their word form. */
  function OverWire(p: Proof): Proof
    requires |p.keys| == |p.preValues| == |p.postValues| && Fits(p.preValues) && Fits(p.postValues)
  {
    var rows := FromDiff(ToDiff(p.keys, p.preValues, p.postValues));
    p.(keys := rows.keys, preValues := rows.pre, postValues := rows.post)
  }

  /** A proof is sent and received. Where the codec brings its commitments back, nothing fails, and the same
      proof arrives exactly when every value is nil or has 32 bytes. */
  method SendProof(codec: PointCodec, p: Proof) returns (r: Received)
    requires |p.keys| == |p.preValues| == |p.postValues| && Fits(p.preValues) && Fits(p.postValues) && Faithful(codec, p.cs)
    ensures r == Received(OverWire(p)) && OverWire(p).keys == p.keys
    ensures r == Received(p) <==> AllWordSized(p.preValues) && AllWordSized(p.postValues)
  {
    hide ToDiff, FromDiff, Fits, AllWordSized;
    var vp, statediff, panics := SerializeProof(codec, p);
    r := DeserializeProof(codec, vp, statediff);
    assert r.Received?;
    assert r.proof.cs == p.cs;
    DiffRoundTrip(p.keys, p.preValues, p.postValues);
    ProofSurvivesWire(p.keys, p.preValues, p.postValues);
  }

  /** With values of 32 bytes or none, the tree rebuilt from the received proof answers every key as
      the prover's tree does. */
  lemma RoundTripOverWire(t: Trie.Tree, ks: Keys, post: seq<Value>)
    requires t.Node? && Trie.Valid(t, []) && SortedKeys(ks) && ks != [] && |post| == |ks| && AllWordSized(post)
    requires forall k :: k in ks ==> WordSized(Trie.Get(t, k))
    ensures Placed(Resolved(t), [])
    ensures var sent := ProofOf(Resolved(t), ks, post);
            && Fits(sent.preValues) && Fits(post) && OverWire(sent) == sent
            && var rebuilt := TreeFromProof(OverWire(sent), Trie.Commitment(t));
               rebuilt.Ok? && rebuilt.value.comms == []
               && forall k :: k in ks ==> ReadAt(rebuilt.value.node, 0, k) == Answer(Trie.Get(t, k))
  {
    StatelessRoundTrip(t, ks, post);
    var sent := ProofOf(Resolved(t), ks, post);
    forall j | 0 <= j < |ks| ensures WordSized(sent.preValues[j]) {
      assert ks[j] in ks;
      ReadResolved(t, [], ks[j]);
    }
    ProofSurvivesWire(ks, sent.preValues, post);
  }

  // ----- Some codec is faithful ---------------------------------------------

  function Digits(n: nat, width: nat): (s: seq<byte>)
    ensures |s| == width
  {
    if width == 0 then [] else [n % 256] + Digits(n / 256, width - 1)
  }

  function Bound(width: nat): (b: nat)
    ensures b > 0
  {
    if width == 0 then 1 else 256 * Bound(width - 1)
  }

  lemma {:induction false} DigitsRoundTrip(n: nat, width: nat)
    requires n < Bound(width)
    ensures LittleEndian(Digits(n, width)) == n
  {
    if width > 0 {
      DigitsRoundTrip(n / 256, width - 1);
      assert Digits(n, width)[1..] == Digits(n / 256, width - 1);
    }
  }

  /** The position of a point in a list; past its end when it is not there. */
  function PositionOf(p: Point, ps: seq<Point>): (i: nat)
    ensures i <= |ps| && (p in ps ==> i < |ps| && ps[i] == p)
  {
    if ps == [] then 0 else if ps[0] == p then 0 else 1 + PositionOf(p, ps[1..])
  }

  function ListCodec(ps: seq<Point>): PointCodec {
    PointCodec((p: Point) => Digits(PositionOf(p, ps), 32),
               (b: Compressed) => if LittleEndian(b) < |ps| then SomePoint(ps[LittleEndian(b)]) else NoPoint)
  }

  /** Every list of points that is not longer than there are 32-byte strings has a faithful codec. */
  lemma SomeCodecIsFaithful(ps: seq<Point>)
    requires |ps| < Bound(32)
    ensures Faithful(ListCodec(ps), ps)
  {
    hide Digits, Bound, LittleEndian;
    forall i | 0 <= i < |ps| ensures ListCodec(ps).decode(ListCodec(ps).encode(ps[i])) == SomePoint(ps[i]) {
      DigitsRoundTrip(PositionOf(ps[i], ps), 32);
    }
  }
}
