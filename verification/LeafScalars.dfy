/** What the two polynomials of a leaf say: a value can be read off its two coefficients, a stem off the
    extension polynomial.  Scalars are told by their digits to base 256. */
module LeafScalars {
  import opened Pedersen
  import opened VerkleTypes

  // ----- Digits ----------------------------------------------------------

  function Power(k: nat): (p: nat)
    ensures p > 0
  {
    if k == 0 then 1 else 256 * Power(k - 1)
  }

  function DigitAt(n: nat, i: nat): byte {
    (n / Power(i)) % 256
  }

  /** `n` is the number whose digits are `b`, the least significant first. */
  ghost predicate Writes(n: nat, b: seq<byte>) {
    n < Power(|b|) && forall i :: 0 <= i < |b| ==> DigitAt(n, i) == b[i]
  }

  lemma Associate(b: nat, q: nat)
    ensures 256 * (b * q) == (256 * b) * q
  {
  }

  lemma DivByMore(n: nat, b: nat)
    requires b > 0
    ensures (n / 256) / b == n / (256 * b)
  {
    var q, r := n / 256, n % 256;
    var q2, r2 := q / b, q % b;
    assert q == b * q2 + r2;
    Associate(b, q2);
    Quotient(n, 256 * b, q2, 256 * r2 + r);
  }

  lemma Quotient(n: nat, m: nat, q: nat, r: nat)
    requires n == m * q + r && r < m
    ensures n / m == q
  {
    var d := n / m;
    assert n == m * d + n % m;
    assert d >= q + 1 ==> m * d >= m * (q + 1) == m * q + m;
    assert q >= d + 1 ==> m * q >= m * (d + 1) == m * d + m;
  }

  /** One more digit below. */
  lemma ShiftedDigit(n: nat, rest: nat, d: byte, i: nat)
    requires n == d + 256 * rest
    ensures DigitAt(n, 0) == d && DigitAt(n, i + 1) == DigitAt(rest, i)
  {
    Quotient(n, 256, rest, d);
    DivByMore(n, Power(i));
    assert Power(0) == 1;
  }

  lemma {:induction false} LittleEndianWrites(b: seq<byte>)
    ensures Writes(LittleEndian(b), b)
  {
    if b != [] {
      var n, rest := LittleEndian(b), LittleEndian(b[1..]);
      LittleEndianWrites(b[1..]);
      assert n == b[0] + 256 * rest;
      assert n < Power(|b|);
      hide LittleEndian, Power, DigitAt;
      forall i | 0 <= i < |b| ensures DigitAt(n, i) == b[i] {
        ShiftedDigit(n, rest, b[0], if i == 0 then 0 else i - 1);
        assert i > 0 ==> b[1..][i - 1] == b[i];
      }
    }
  }

  /** A number is written in one way. */
  lemma WritesOnce(n: nat, b: seq<byte>, c: seq<byte>)
    requires Writes(n, b) && Writes(n, c) && |b| == |c|
    ensures b == c
  {
    forall i | 0 <= i < |b| ensures b[i] == c[i] {
      assert b[i] == DigitAt(n, i) == c[i];
    }
  }

  // ----- Values ----------------------------------------------------------

  const MARKER: nat := 0x1_0000_0000_0000_0000_0000_0000_0000_0000

  /** The first sixteen bytes, and what comes after them. */
  function Low(v: Value): seq<byte> {
    if v.Nil? then [] else if |v.bytes| < 16 then v.bytes else v.bytes[..16]
  }

  function High(v: Value): seq<byte> {
    if v.Nil? || |v.bytes| < 16 then [] else v.bytes[16..]
  }

  lemma {:induction false} PowerGrows(i: nat, j: nat)
    requires i <= j
    ensures Power(i) <= Power(j)
    decreases j
  {
    if i < j {
      PowerGrows(i, j - 1);
    }
  }

  lemma PowerOfSixteen()
    ensures Power(16) == MARKER
  {
    assert Power(4) == 0x1_0000_0000;
    assert Power(8) == 0x1_0000_0000_0000_0000;
    assert Power(12) == 0x1_0000_0000_0000_0000_0000_0000;
  }

  lemma LowScalar(b: seq<byte>)
    requires |b| <= 16
    ensures Writes(LittleEndian(b), b) && LittleEndian(b) < MARKER
  {
    LittleEndianWrites(b);
    PowerGrows(|b|, 16);
    PowerOfSixteen();
  }

  /** The two scalars of a value: nothing for an empty one; otherwise the marker 2^128 on top of the number
      its first sixteen bytes write, and the number the rest writes. */
  ghost predicate ScalarPair(v: Value, lo: Scalar, hi: Scalar) {
    && (lo >= MARKER <==> v.Len() > 0)
    && (v.Len() == 0 ==> lo == hi == 0)
    && (v.Len() > 0 ==>
          && MARKER <= lo < 2 * MARKER && Writes(lo - MARKER, Low(v))
          && 0 <= hi < MARKER && Writes(hi, High(v)))
  }

  lemma ValueCoefficients(vs: Values, first: nat, k: nat)
    requires (first == 0 || first == 128) && k < 128 && !TooLong(vs[first + k])
    ensures ScalarPair(vs[first + k], SuffixPoly(vs, first)[2 * k], SuffixPoly(vs, first)[2 * k + 1])
  {
    LeafScalarPair(vs[first + k]);
    CoefficientsAt(vs, first, k);
    hide LeafToComms, ScalarPair, SuffixPoly;
  }

  lemma CoefficientsAt(vs: Values, first: nat, k: nat)
    requires (first == 0 || first == 128) && k < 128
    ensures SuffixPoly(vs, first)[2 * k] == LeafToComms(vs[first + k]).0
    ensures SuffixPoly(vs, first)[2 * k + 1] == LeafToComms(vs[first + k]).1
  {
    hide LeafToComms;
    var even, odd := 2 * k, 2 * k + 1;
    assert even % 2 == 0 && even / 2 == k && odd % 2 == 1 && odd / 2 == k;
  }

  lemma LeafScalarPair(v: Value)
    requires !TooLong(v)
    ensures ScalarPair(v, LeafToComms(v).0, LeafToComms(v).1)
  {
    LowScalar(Low(v));
    LowScalar(High(v));
    hide LittleEndian, Writes;
    if v.Len() > 0 {
      assert Low(v) == v.bytes[..if |v.bytes| < 16 then |v.bytes| else 16];
      assert |v.bytes| < 16 ==> LittleEndian(High(v)) == 0 by {
        NothingIsZero();
      }
    }
  }

  lemma NothingIsZero()
    ensures LittleEndian([]) == 0
  {
  }

  // ----- What a polynomial determines ---------------------------------------

  function ByteAt(v: Value, i: nat): byte {
    if v.Nil? || i >= |v.bytes| then 0 else v.bytes[i]
  }

  /** Both empty, or both present with the same bytes up to zeros at the end. */
  ghost predicate SameContent(v: Value, u: Value) {
    (v.Len() == 0 <==> u.Len() == 0) && forall i :: 0 <= i < 32 ==> ByteAt(v, i) == ByteAt(u, i)
  }

  lemma EmptyContent(v: Value, u: Value)
    ensures v.Len() == 0 || u.Len() == 0 ==> (SameContent(v, u) <==> v.Len() == u.Len())
  {
  }

  /** The digits of a number do not depend on how many zeros are written above it. */
  lemma DigitsOf(n: nat, b: seq<byte>, i: nat)
    requires Writes(n, b)
    ensures DigitAt(n, i) == Digit(b, i)
  {
    if i >= |b| {
      PowerGrows(|b|, i);
      Quotient(n, Power(i), 0, n);
    }
  }

  lemma {:induction false} DigitsDecide(n: nat, m: nat, k: nat)
    requires n < Power(k) && m < Power(k) && forall i :: 0 <= i < k ==> DigitAt(n, i) == DigitAt(m, i)
    ensures n == m
    decreases k
  {
    if k > 0 {
      assert n % 256 == DigitAt(n, 0) == DigitAt(m, 0) == m % 256;
      forall i | 0 <= i < k - 1 ensures DigitAt(n / 256, i) == DigitAt(m / 256, i) {
        DivByMore(n, Power(i));
        DivByMore(m, Power(i));
        assert DigitAt(n, i + 1) == DigitAt(m, i + 1);
      }
      DigitsDecide(n / 256, m / 256, k - 1);
    }
  }

  /** The scalars of one value against those of another. */
  lemma SameScalars(v: Value, lo: Scalar, hi: Scalar, u: Value, lo': Scalar, hi': Scalar)
    requires !TooLong(v) && !TooLong(u) && ScalarPair(v, lo, hi) && ScalarPair(u, lo', hi')
    ensures lo == lo' && hi == hi' <==> SameContent(v, u)
  {
    EmptyContent(v, u);
    if v.Len() > 0 && u.Len() > 0 {
      SameNumber(lo - MARKER, lo' - MARKER, Low(v), Low(u));
      SameNumber(hi, hi', High(v), High(u));
      HalvesMakeTheWhole(v, u);
    }
    hide Writes, Low, High, SameContent, SameDigits;
  }

  function Digit(b: seq<byte>, i: nat): byte {
    if i < |b| then b[i] else 0
  }

  ghost predicate SameDigits(b: seq<byte>, c: seq<byte>) {
    forall i :: 0 <= i < 16 ==> Digit(b, i) == Digit(c, i)
  }

  lemma SameNumber(n: nat, m: nat, b: seq<byte>, c: seq<byte>)
    requires Writes(n, b) && Writes(m, c) && |b| <= 16 && |c| <= 16
    ensures n == m <==> SameDigits(b, c)
  {
    PowerGrows(|b|, 16);
    PowerGrows(|c|, 16);
    forall i: nat | i < 16
      ensures DigitAt(n, i) == Digit(b, i) && DigitAt(m, i) == Digit(c, i)
    {
      DigitsOf(n, b, i);
      DigitsOf(m, c, i);
    }
    hide Power, DigitAt, Writes, Digit;
    if SameDigits(b, c) {
      forall i | 0 <= i < 16 ensures DigitAt(n, i) == DigitAt(m, i) {
      }
      DigitsDecide(n, m, 16);
    }
    if n == m {
      forall i | 0 <= i < 16 ensures Digit(b, i) == Digit(c, i) {
        assert DigitAt(n, i) == DigitAt(m, i);
      }
    }
  }

  lemma HalfDigits(v: Value, i: nat)
    requires 0 < v.Len() <= 32
    ensures i < 16 ==> Digit(Low(v), i) == ByteAt(v, i) && Digit(High(v), i) == ByteAt(v, i + 16)
  {
  }

  lemma HalvesMakeTheWhole(v: Value, u: Value)
    requires 0 < v.Len() <= 32 && 0 < u.Len() <= 32
    ensures SameContent(v, u) <==> SameDigits(Low(v), Low(u)) && SameDigits(High(v), High(u))
  {
    hide ByteAt, Low, High, Digit;
    if SameContent(v, u) {
      forall i: nat | i < 16 ensures Digit(Low(v), i) == Digit(Low(u), i) && Digit(High(v), i) == Digit(High(u), i) {
        HalfDigits(v, i);
        HalfDigits(u, i);
        assert ByteAt(v, i) == ByteAt(u, i);
        var above := i + 16;
        assert ByteAt(v, above) == ByteAt(u, above);
      }
    }
    if SameDigits(Low(v), Low(u)) && SameDigits(High(v), High(u)) {
      forall i: nat | i < 32 ensures ByteAt(v, i) == ByteAt(u, i) {
        var j: nat := if i < 16 then i else i - 16;
        HalfDigits(v, j);
        HalfDigits(u, j);
        assert Digit(Low(v), j) == Digit(Low(u), j) && Digit(High(v), j) == Digit(High(u), j);
      }
    }
  }

  ghost predicate SamePair(vs: Values, us: Values, first: nat, k: nat)
    requires first == 0 || first == 128
    requires k < 128
  {
    SuffixPoly(vs, first)[2 * k] == SuffixPoly(us, first)[2 * k] && SuffixPoly(vs, first)[2 * k + 1] == SuffixPoly(us, first)[2 * k + 1]
  }

  lemma PairTellsValue(vs: Values, us: Values, first: nat, k: nat)
    requires (first == 0 || first == 128) && k < 128 && !TooLong(vs[first + k]) && !TooLong(us[first + k])
    ensures SamePair(vs, us, first, k) <==> SameContent(vs[first + k], us[first + k])
  {
    ValueCoefficients(vs, first, k);
    ValueCoefficients(us, first, k);
    hide SuffixPoly, ScalarPair, SameContent;
    SameScalars(vs[first + k], SuffixPoly(vs, first)[2 * k], SuffixPoly(vs, first)[2 * k + 1],
                us[first + k], SuffixPoly(us, first)[2 * k], SuffixPoly(us, first)[2 * k + 1]);
  }

  lemma PairsMakeThePoly(vs: Values, us: Values, first: nat)
    requires first == 0 || first == 128
    ensures SuffixPoly(vs, first) == SuffixPoly(us, first) <==> forall k :: 0 <= k < 128 ==> SamePair(vs, us, first, k)
  {
    var f, g := SuffixPoly(vs, first), SuffixPoly(us, first);
    if forall k :: 0 <= k < 128 ==> SamePair(vs, us, first, k) {
      forall j | 0 <= j < NODE_WIDTH ensures f[j] == g[j] {
        assert SamePair(vs, us, first, j / 2);
        assert j == 2 * (j / 2) || j == 2 * (j / 2) + 1;
      }
      assert f == g;
    }
  }

  ghost predicate SameHalf(vs: Values, us: Values, first: nat)
    requires first == 0 || first == 128
  {
    forall k :: first <= k < first + 128 ==> SameContent(vs[k], us[k])
  }

  /** The polynomials of two halves agree exactly when the values do, up to what zeros and emptiness hide. */
  lemma SuffixPolyTellsValues(vs: Values, us: Values, first: nat)
    requires first == 0 || first == 128
    requires forall k :: first <= k < first + 128 ==> !TooLong(vs[k]) && !TooLong(us[k])
    ensures SuffixPoly(vs, first) == SuffixPoly(us, first) <==> SameHalf(vs, us, first)
  {
    PairsMakeThePoly(vs, us, first);
    hide SuffixPoly, SameContent, SamePair, TooLong;
    forall k: nat | k < 128 ensures SamePair(vs, us, first, k) <==> SameContent(vs[first + k], us[first + k]) {
      PairTellsValue(vs, us, first, k);
    }
    if SameHalf(vs, us, first) {
      forall k: nat | k < 128 ensures SamePair(vs, us, first, k) {
        var at := first + k;
        assert SameContent(vs[at], us[at]);
      }
    }
    if forall k :: 0 <= k < 128 ==> SamePair(vs, us, first, k) {
      forall at | first <= at < first + 128 ensures SameContent(vs[at], us[at]) {
        var k: nat := at - first;
        assert SamePair(vs, us, first, k);
      }
    }
  }

  // ----- The extension polynomial -------------------------------------------

  /** One, the number the stem writes, the two halves' scalars, and nothing else. */
  lemma ExtensionCoefficients(stem: Stem, c1: Point, c2: Point)
    ensures var f := LeafPoly(stem, c1, c2);
            && |f| == 256 && f[0] == 1 && f[1] >= 0 && Writes(f[1], stem)
            && f[2] == MapToScalarField(c1) && f[3] == MapToScalarField(c2)
            && forall j :: 4 <= j < 256 ==> f[j] == 0
  {
    LittleEndianWrites(stem);
  }

  /** Leaves with one extension polynomial have one stem, and halves with one scalar. */
  lemma LeafPolyTellsStem(stem: Stem, c1: Point, c2: Point, other: Stem, d1: Point, d2: Point)
    ensures LeafPoly(stem, c1, c2) == LeafPoly(other, d1, d2)
       <==> stem == other && MapToScalarField(c1) == MapToScalarField(d1) && MapToScalarField(c2) == MapToScalarField(d2)
  {
    var f, g := LeafPoly(stem, c1, c2), LeafPoly(other, d1, d2);
    ExtensionCoefficients(stem, c1, c2);
    ExtensionCoefficients(other, d1, d2);
    if f == g {
      WritesOnce(f[1], stem, other);
    }
  }
}
