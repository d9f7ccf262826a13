/** Vector commitments as the trie uses them.

    The Banderwagon group is cyclic, so a point is written as its logarithm to a
    fixed base and the group law is addition.  Scalars and logarithms are kept as
    unbounded integers: everything stated about them is an equation between sums of
    products, which survives the reduction modulo the group order.  The generators
    and the map from points to scalars are arbitrary; of the map only "the identity
    goes to zero" is known. */
module Pedersen {
  type Scalar = int
  type Point = int
  type Poly = seq<Scalar>

  const IDENTITY: Point := 0
  const GENERATOR: nat -> Point

  type ScalarMap = h: Point -> Scalar | h(IDENTITY) == 0 witness (_ => 0)
  const MapToScalarField: ScalarMap

  /** The commitment to a polynomial in evaluation form: the sum of f[i] times the i-th generator. */
  function Commit(f: Poly): Point {
    if f == [] then IDENTITY
    else Commit(f[..|f| - 1]) + f[|f| - 1] * GENERATOR(|f| - 1)
  }

  /** Commit is linear; everything incremental in the trie rests on this. */
  lemma {:induction false} CommitIsLinear(f: Poly, g: Poly, sum: Poly)
    requires |f| == |g| == |sum|
    requires forall i :: 0 <= i < |sum| ==> sum[i] == f[i] + g[i]
    ensures Commit(sum) == Commit(f) + Commit(g)
  {
    if sum != [] {
      var n := |sum| - 1;
      CommitIsLinear(f[..n], g[..n], sum[..n]);
      assert sum[n] == f[n] + g[n];
    }
  }

  function Sum(f: Poly, g: Poly): (sum: Poly)
    requires |f| == |g|
    ensures |sum| == |f| && forall i :: 0 <= i < |f| ==> sum[i] == f[i] + g[i]
  {
    seq(|f|, i requires 0 <= i < |f| => f[i] + g[i])
  }

  lemma {:induction false} CommitZero(f: Poly)
    requires forall i :: 0 <= i < |f| ==> f[i] == 0
    ensures Commit(f) == IDENTITY
  {
    if f != [] {
      CommitZero(f[..|f| - 1]);
    }
  }

  /** Go commits slices shorter than the node width; the missing coefficients count as zero. */
  lemma {:induction false} CommitPadded(f: Poly, g: Poly)
    requires |f| <= |g| && g[..|f|] == f
    requires forall i :: |f| <= i < |g| ==> g[i] == 0
    ensures Commit(f) == Commit(g)
    decreases |g|
  {
    if |f| < |g| {
      var n := |g| - 1;
      assert g[..n][..|f|] == f;
      CommitPadded(f, g[..n]);
    } else {
      assert f == g;
    }
  }

  /** All coefficients zero but the one at `i`. */
  function Unit(width: nat, i: nat, x: Scalar): (f: Poly)
    requires i < width
    ensures |f| == width && f[i] == x
    ensures forall j :: 0 <= j < width && j != i ==> f[j] == 0
  {
    seq(width, j => if j == i then x else 0)
  }

  /** Adding the commitment to a one-point difference moves a commitment from f to f[i := x]. */
  lemma CommitPatch(f: Poly, i: nat, x: Scalar)
    requires i < |f|
    ensures Commit(f[i := x]) == Commit(f) + Commit(Unit(|f|, i, x - f[i]))
  {
    CommitIsLinear(f, Unit(|f|, i, x - f[i]), f[i := x]);
  }
}
