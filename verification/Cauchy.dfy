/** Every square Cauchy system over a field can be solved, by eliminating one row and one column at a time. */
module Cauchy {
  import opened Field
  import opened Linear

  /** The column 1 / (x + y) for x in xs. */
  function CauchyColumn<E>(F: Gf<E>, xs: Vec<E>, y: E): (v: Vec<E>)
    ensures |v| == |xs|
  {
    seq(|xs|, i requires 0 <= i < |xs| => F.inv(F.add(xs[i], y)))
  }

  /** Distinct points xs and ys, none of them in common. */
  ghost predicate CauchyPoints<E>(xs: Vec<E>, ys: Vec<E>) {
    && |xs| == |ys|
    && (forall i, j | 0 <= i < j < |xs| :: xs[i] != xs[j])
    && (forall i, j | 0 <= i < j < |ys| :: ys[i] != ys[j])
    && (forall i, j | 0 <= i < |xs| && 0 <= j < |ys| :: xs[i] != ys[j])
  }

  /** ((u + z) i) / u = (1 + z / u) i */
  lemma SplitFraction<E(!new)>(F: Gf<E>, u: E, z: E, i: E)
    requires IsField(F) && u != F.zero
    ensures F.mul(F.mul(F.add(u, z), i), F.inv(u)) == F.mul(F.add(F.one, F.mul(z, F.inv(u))), i)
  {
    MulSwap(F, F.add(u, z), i, F.inv(u));
    DistributeRight(F, u, z, F.inv(u));
    assert Inverts(F, u);
  }

  /** 1 / u + 1 / v = (u + v) / v / u */
  lemma SumOfInverses<E(!new)>(F: Gf<E>, u: E, v: E)
    requires IsField(F) && u != F.zero && v != F.zero
    ensures F.add(F.inv(u), F.inv(v)) == F.mul(F.mul(F.add(u, v), F.inv(v)), F.inv(u))
  {
    var iu, iv := F.inv(u), F.inv(v);
    DistributeRight(F, u, v, iv);
    assert Inverts(F, u) && Inverts(F, v);
    DistributeRight(F, F.mul(u, iv), F.one, iu);
    MulSwap(F, u, iv, iu);
    MulOne(F, iv);
    MulOne(F, iu);
    assert AddCommutes(F, iu, iv);
  }

  /** The elimination identity: (u+z)/(u+v)/u + (v+z)/(u+v)/v = z/v/u. */
  lemma Eliminates<E(!new)>(F: Gf<E>, u: E, v: E, z: E)
    requires IsField(F) && u != F.zero && v != F.zero && F.add(u, v) != F.zero
    ensures var i := F.inv(F.add(u, v));
            F.add(F.mul(F.mul(F.add(u, z), i), F.inv(u)), F.mul(F.mul(F.add(v, z), i), F.inv(v)))
            == F.mul(F.mul(z, F.inv(v)), F.inv(u))
  {
    var w, iu, iv := F.add(u, v), F.inv(u), F.inv(v);
    var i, p, q := F.inv(w), F.mul(z, iu), F.mul(z, iv);
    SplitFraction(F, u, z, i);
    SplitFraction(F, v, z, i);
    DistributeRight(F, F.add(F.one, p), F.add(F.one, q), i);
    AddSwap(F, F.one, p, F.one, q);
    assert Cancels(F, F.one);
    AddZero(F, F.add(p, q));
    assert Distributes(F, z, iu, iv);
    SumOfInverses(F, u, v);
    // z (((u + v) / v) / u) / (u + v) = (z / v) / u
    assert MulAssociates(F, z, F.mul(w, iv), iu) && MulAssociates(F, z, w, iv);
    MulSwap(F, F.mul(F.mul(z, w), iv), iu, i);
    MulSwap(F, F.mul(z, w), iv, i);
    DivideOut(F, w, z);
  }

  /** Row x of the matrix, times Keep, plus the last row X, times Drop, has a 0 in the last column Y. */
  function Keep<E>(F: Gf<E>, x: E, X: E, Y: E): E {
    F.mul(F.add(x, Y), F.inv(F.add(x, X)))
  }

  function Drop<E>(F: Gf<E>, x: E, X: E, Y: E): E {
    F.mul(F.add(X, Y), F.inv(F.add(x, X)))
  }

  /** The factor by which this scales column y. */
  function Factor<E>(F: Gf<E>, X: E, Y: E, y: E): E {
    F.mul(F.add(Y, y), F.inv(F.add(X, y)))
  }

  function Kept<E>(F: Gf<E>, q: Vec<E>, xs: Vec<E>, X: E, Y: E): Vec<E>
    requires |q| == |xs|
  {
    seq(|q|, i requires 0 <= i < |q| => F.mul(q[i], Keep(F, xs[i], X, Y)))
  }

  function Drops<E>(F: Gf<E>, xs: Vec<E>, X: E, Y: E): Vec<E> {
    seq(|xs|, i requires 0 <= i < |xs| => Drop(F, xs[i], X, Y))
  }

  lemma EliminatesRow<E(!new)>(F: Gf<E>, q: E, x: E, X: E, Y: E, y: E)
    requires IsField(F) && x != X && x != y && X != y
    ensures F.add(F.mul(F.mul(q, Keep(F, x, X, Y)), F.inv(F.add(x, y))),
                  F.mul(F.mul(q, Drop(F, x, X, Y)), F.inv(F.add(X, y))))
         == F.mul(Factor(F, X, Y, y), F.mul(q, F.inv(F.add(x, y))))
  {
    var u, v, z := F.add(x, y), F.add(X, y), F.add(Y, y);
    Telescope(F, x, Y, y);
    Telescope(F, X, Y, y);
    Telescope(F, x, X, y);
    SumNonzero(F, x, y);
    SumNonzero(F, X, y);
    SumNonzero(F, x, X);
    Eliminates(F, u, v, z);
    var a, b, iu, iv, d := Keep(F, x, X, Y), Drop(F, x, X, Y), F.inv(u), F.inv(v), Factor(F, X, Y, y);
    assert MulAssociates(F, q, a, iu) && MulAssociates(F, q, b, iv) && Distributes(F, q, F.mul(a, iu), F.mul(b, iv));
    assert MulAssociates(F, q, d, iu) && MulCommutes(F, q, d) && MulAssociates(F, d, q, iu);
  }

  lemma {:induction false} EliminatesAll<E(!new)>(F: Gf<E>, q: Vec<E>, xs: Vec<E>, X: E, Y: E, y: E)
    requires IsField(F) && |q| == |xs| && X != y && forall i | 0 <= i < |xs| :: xs[i] != X && xs[i] != y
    ensures F.add(Dot(F, Kept(F, q, xs, X, Y), CauchyColumn(F, xs, y)),
                  F.mul(Dot(F, q, Drops(F, xs, X, Y)), F.inv(F.add(X, y))))
         == F.mul(Factor(F, X, Y, y), Dot(F, q, CauchyColumn(F, xs, y)))
  {
    var d, iv := Factor(F, X, Y, y), F.inv(F.add(X, y));
    if q == [] {
      MulZero(F, iv);
      MulZero(F, d);
      AddZero(F, F.zero);
    } else {
      var n := |q| - 1;
      EliminatesAll(F, q[..n], xs[..n], X, Y, y);
      EliminatesRow(F, q[n], xs[n], X, Y, y);
      var k, r, s := Kept(F, q, xs, X, Y), CauchyColumn(F, xs, y), Drops(F, xs, X, Y);
      assert k[..n] == Kept(F, q[..n], xs[..n], X, Y);
      assert r[..n] == CauchyColumn(F, xs[..n], y);
      assert s[..n] == Drops(F, xs[..n], X, Y);
      DistributeRight(F, Dot(F, q[..n], s[..n]), F.mul(q[n], s[n]), iv);
      assert Distributes(F, d, Dot(F, q[..n], r[..n]), F.mul(q[n], r[n]));
      AddSwap(F, Dot(F, k[..n], r[..n]), F.mul(k[n], r[n]), F.mul(Dot(F, q[..n], s[..n]), iv),
        F.mul(F.mul(q[n], s[n]), iv));
    }
  }

  /** The combined coefficients, read in column y. */
  lemma Combined<E(!new)>(F: Gf<E>, q: Vec<E>, c: E, xs: Vec<E>, X: E, Y: E, y: E)
    requires IsField(F) && |xs| == |q| && X != y && forall i | 0 <= i < |xs| :: xs[i] != X && xs[i] != y
    ensures Dot(F, Kept(F, q, xs, X, Y) + [F.add(c, Dot(F, q, Drops(F, xs, X, Y)))], CauchyColumn(F, xs + [X], y))
         == F.add(F.mul(Factor(F, X, Y, y), Dot(F, q, CauchyColumn(F, xs, y))), F.mul(c, F.inv(F.add(X, y))))
  {
    var k, e, iv := Kept(F, q, xs, X, Y), Dot(F, q, Drops(F, xs, X, Y)), F.inv(F.add(X, y));
    var p, col := k + [F.add(c, e)], CauchyColumn(F, xs + [X], y);
    EliminatesAll(F, q, xs, X, Y, y);
    assert p[..|q|] == k && col[..|q|] == CauchyColumn(F, xs, y);
    DistributeRight(F, c, e, iv);
    assert AddCommutes(F, F.mul(c, iv), F.mul(e, iv))
        && AddAssociates(F, Dot(F, k, CauchyColumn(F, xs, y)), F.mul(e, iv), F.mul(c, iv));
  }

  /** What is left of the right-hand side b in column y once the last row has taken its share c, unscaled. */
  function Rest<E>(F: Gf<E>, b: E, c: E, X: E, Y: E, y: E): E {
    F.mul(F.add(b, F.mul(c, F.inv(F.add(X, y)))), F.inv(Factor(F, X, Y, y)))
  }

  lemma RestFits<E(!new)>(F: Gf<E>, b: E, c: E, X: E, Y: E, y: E)
    requires IsField(F) && X != y && Y != y
    ensures F.add(F.mul(Factor(F, X, Y, y), Rest(F, b, c, X, Y, y)), F.mul(c, F.inv(F.add(X, y)))) == b
  {
    SumNonzero(F, X, y);
    SumNonzero(F, Y, y);
    InvNonzero(F, F.add(X, y));
    MulNonzero(F, F.add(Y, y), F.inv(F.add(X, y)));
    var g := F.mul(c, F.inv(F.add(X, y)));
    DivideOut(F, Factor(F, X, Y, y), F.add(b, g));
    AddCancel(F, b, g);
  }

  lemma LastFits<E(!new)>(F: Gf<E>, b: E, X: E, Y: E, d: E)
    requires IsField(F) && X != Y
    ensures F.add(F.mul(Factor(F, X, Y, Y), d), F.mul(F.mul(b, F.add(X, Y)), F.inv(F.add(X, Y)))) == b
  {
    assert Cancels(F, Y);
    MulZero(F, F.inv(F.add(X, Y)));
    MulZero(F, d);
    SumNonzero(F, X, Y);
    DivideOut(F, F.add(X, Y), b);
    AddZero(F, b);
  }

  /** For any right-hand side there is a combination of the rows of a Cauchy matrix that equals it. */
  lemma {:induction false} CauchySolve<E(!new)>(F: Gf<E>, xs: Vec<E>, ys: Vec<E>, b: Vec<E>) returns (q: Vec<E>)
    requires IsField(F) && CauchyPoints(xs, ys) && |b| == |ys|
    ensures |q| == |xs| && forall j | 0 <= j < |ys| :: Dot(F, q, CauchyColumn(F, xs, ys[j])) == b[j]
  {
    q := [];
    if |xs| > 0 {
      var t := |xs| - 1;
      var r, X, Y := xs[..t], xs[t], ys[t];
      var c := F.mul(b[t], F.add(X, Y));
      var b' := seq(t, j requires 0 <= j < t => Rest(F, b[j], c, X, Y, ys[j]));
      var q' := CauchySolve(F, r, ys[..t], b');
      q := Kept(F, q', r, X, Y) + [F.add(c, Dot(F, q', Drops(F, r, X, Y)))];
      assert xs == r + [X];
      forall j | 0 <= j <= t ensures Dot(F, q, CauchyColumn(F, xs, ys[j])) == b[j] {
        Combined(F, q', c, r, X, Y, ys[j]);
        if j == t {
          LastFits(F, b[t], X, Y, Dot(F, q', CauchyColumn(F, r, Y)));
        } else {
          assert Dot(F, q', CauchyColumn(F, r, ys[..t][j])) == b'[j];
          RestFits(F, b[j], c, X, Y, ys[j]);
        }
      }
    }
  }
}
