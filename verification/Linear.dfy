/** Vectors and matrices over a field. */
module Linear {
  import opened Field

  type Vec<E> = seq<E>
  type Matrix<E> = seq<seq<E>>

  function Dot<E>(F: Gf<E>, u: Vec<E>, v: Vec<E>): E
    requires |u| == |v|
  {
    if u == [] then F.zero
    else F.add(Dot(F, u[..|u| - 1], v[..|u| - 1]), F.mul(u[|u| - 1], v[|u| - 1]))
  }

  function Scale<E>(F: Gf<E>, a: E, v: Vec<E>): Vec<E> {
    seq(|v|, i requires 0 <= i < |v| => F.mul(a, v[i]))
  }

  function Plus<E>(F: Gf<E>, u: Vec<E>, v: Vec<E>): Vec<E>
    requires |u| == |v|
  {
    seq(|v|, i requires 0 <= i < |v| => F.add(u[i], v[i]))
  }

  predicate Rect<E>(M: Matrix<E>, rows: nat, cols: nat) {
    |M| == rows && forall r | 0 <= r < rows :: |M[r]| == cols
  }

  function Column<E>(M: Matrix<E>, c: nat): (v: Vec<E>)
    requires forall r | 0 <= r < |M| :: c < |M[r]|
    ensures |v| == |M|
  {
    seq(|M|, r requires 0 <= r < |M| => M[r][c])
  }

  /** The combination n[0] M[0] + n[1] M[1] + ... of the rows of M. */
  function Comb<E>(F: Gf<E>, n: Vec<E>, M: Matrix<E>, k: nat): (v: Vec<E>)
    requires Rect(M, |n|, k)
    ensures |v| == k
  {
    seq(k, c requires 0 <= c < k => Dot(F, n, Column(M, c)))
  }

  /** M x */
  function Apply<E>(F: Gf<E>, M: Matrix<E>, x: Vec<E>): (v: Vec<E>)
    requires Rect(M, |M|, |x|)
    ensures |v| == |M|
  {
    seq(|M|, r requires 0 <= r < |M| => Dot(F, M[r], x))
  }

  function Unit<E>(F: Gf<E>, k: nat, i: nat): (v: Vec<E>)
    ensures |v| == k
  {
    seq(k, j => if j == i then F.one else F.zero)
  }

  lemma {:induction false} DotAppend<E(!new)>(F: Gf<E>, u: Vec<E>, v: Vec<E>, u': Vec<E>, v': Vec<E>)
    requires IsField(F) && |u| == |v| && |u'| == |v'|
    ensures Dot(F, u + u', v + v') == F.add(Dot(F, u, v), Dot(F, u', v'))
  {
    if u' == [] {
      assert u + u' == u && v + v' == v;
      AddZero(F, Dot(F, u, v));
    } else {
      var n := |u'| - 1;
      DotAppend(F, u, v, u'[..n], v'[..n]);
      assert (u + u')[..|u| + n] == u + u'[..n] && (v + v')[..|u| + n] == v + v'[..n];
      assert AddAssociates(F, Dot(F, u, v), Dot(F, u'[..n], v'[..n]), F.mul(u'[n], v'[n]));
    }
  }

  lemma {:induction false} DotZero<E(!new)>(F: Gf<E>, u: Vec<E>, v: Vec<E>)
    requires IsField(F) && |u| == |v| && forall i | 0 <= i < |u| :: u[i] == F.zero || v[i] == F.zero
    ensures Dot(F, u, v) == F.zero
  {
    if u != [] {
      var n := |u| - 1;
      DotZero(F, u[..n], v[..n]);
      MulZero(F, u[n]);
      MulZero(F, v[n]);
      AddZero(F, F.zero);
    }
  }

  /** Only one coordinate counts. */
  lemma {:induction false} DotOne<E(!new)>(F: Gf<E>, u: Vec<E>, v: Vec<E>, p: nat)
    requires IsField(F) && |u| == |v| && p < |u|
    requires forall i | 0 <= i < |u| && i != p :: u[i] == F.zero || v[i] == F.zero
    ensures Dot(F, u, v) == F.mul(u[p], v[p])
  {
    var n := |u| - 1;
    if p == n {
      DotZero(F, u[..n], v[..n]);
    } else {
      DotOne(F, u[..n], v[..n], p);
      MulZero(F, u[n]);
      MulZero(F, v[n]);
    }
    AddZero(F, F.mul(u[p], v[p]));
  }

  lemma {:induction false} DotScale<E(!new)>(F: Gf<E>, a: E, u: Vec<E>, v: Vec<E>)
    requires IsField(F) && |u| == |v|
    ensures Dot(F, Scale(F, a, u), v) == F.mul(a, Dot(F, u, v))
  {
    if u == [] {
      MulZero(F, a);
    } else {
      var n := |u| - 1;
      DotScale(F, a, u[..n], v[..n]);
      assert Scale(F, a, u)[..n] == Scale(F, a, u[..n]);
      assert MulAssociates(F, a, u[n], v[n]) && Distributes(F, a, Dot(F, u[..n], v[..n]), F.mul(u[n], v[n]));
    }
  }

  lemma {:induction false} DotPlus<E(!new)>(F: Gf<E>, u: Vec<E>, v: Vec<E>, w: Vec<E>)
    requires IsField(F) && |u| == |v| == |w|
    ensures Dot(F, Plus(F, u, v), w) == F.add(Dot(F, u, w), Dot(F, v, w))
  {
    if u == [] {
      AddZero(F, F.zero);
    } else {
      var n := |u| - 1;
      DotPlus(F, u[..n], v[..n], w[..n]);
      assert Plus(F, u, v)[..n] == Plus(F, u[..n], v[..n]);
      DistributeRight(F, u[n], v[n], w[n]);
      AddSwap(F, Dot(F, u[..n], w[..n]), Dot(F, v[..n], w[..n]), F.mul(u[n], w[n]), F.mul(v[n], w[n]));
    }
  }

  lemma CombStep<E(!new)>(F: Gf<E>, n: Vec<E>, M: Matrix<E>, k: nat)
    requires Rect(M, |n|, k) && n != []
    ensures var l := |n| - 1; Comb(F, n, M, k) == Plus(F, Comb(F, n[..l], M[..l], k), Scale(F, n[l], M[l]))
  {
    var l := |n| - 1;
    forall c | 0 <= c < k
      ensures Comb(F, n, M, k)[c] == F.add(Comb(F, n[..l], M[..l], k)[c], F.mul(n[l], M[l][c]))
    {
      assert Column(M, c)[..l] == Column(M[..l], c);
    }
  }

  /** (n M) x = n (M x) */
  lemma {:induction false} CombDot<E(!new)>(F: Gf<E>, n: Vec<E>, M: Matrix<E>, x: Vec<E>)
    requires IsField(F) && Rect(M, |n|, |x|)
    ensures Dot(F, Comb(F, n, M, |x|), x) == Dot(F, n, Apply(F, M, x))
  {
    if n == [] {
      DotZero(F, Comb(F, n, M, |x|), x);
    } else {
      var l := |n| - 1;
      CombStep(F, n, M, |x|);
      DotPlus(F, Comb(F, n[..l], M[..l], |x|), Scale(F, n[l], M[l]), x);
      DotScale(F, n[l], M[l], x);
      CombDot(F, n[..l], M[..l], x);
      assert Apply(F, M, x)[..l] == Apply(F, M[..l], x);
    }
  }

  lemma DotUnit<E(!new)>(F: Gf<E>, k: nat, i: nat, x: Vec<E>)
    requires IsField(F) && |x| == k && i < k
    ensures Dot(F, Unit(F, k, i), x) == x[i]
  {
    DotOne(F, Unit(F, k, i), x, i);
    MulOne(F, x[i]);
  }

  /** N B is the identity. */
  ghost predicate IsLeftInverse<E>(F: Gf<E>, N: Matrix<E>, B: Matrix<E>, k: nat) {
    Rect(N, k, k) && Rect(B, k, k) && forall i | 0 <= i < k :: Comb(F, N[i], B, k) == Unit(F, k, i)
  }

  /** A left inverse of B undoes B. */
  lemma InverseUndoes<E(!new)>(F: Gf<E>, N: Matrix<E>, B: Matrix<E>, x: Vec<E>)
    requires IsField(F) && IsLeftInverse(F, N, B, |x|)
    ensures Apply(F, N, Apply(F, B, x)) == x
  {
    forall i | 0 <= i < |x| ensures Apply(F, N, Apply(F, B, x))[i] == x[i] {
      CombDot(F, N[i], B, x);
      DotUnit(F, |x|, i, x);
    }
  }
}
