/** Fields of characteristic 2, the arithmetic of the erasure code. Each law is a predicate of its operands,
    so that a proof names the instances it uses. */
module Field {

  datatype Gf<!E> = Gf(zero: E, one: E, add: (E, E) -> E, mul: (E, E) -> E, inv: E -> E)

  ghost predicate AddCommutes<E>(F: Gf<E>, a: E, b: E) {
    F.add(a, b) == F.add(b, a)
  }

  ghost predicate AddAssociates<E>(F: Gf<E>, a: E, b: E, c: E) {
    F.add(F.add(a, b), c) == F.add(a, F.add(b, c))
  }

  ghost predicate Cancels<E>(F: Gf<E>, a: E) {
    F.add(a, F.zero) == a && F.add(a, a) == F.zero
  }

  ghost predicate MulCommutes<E>(F: Gf<E>, a: E, b: E) {
    F.mul(a, b) == F.mul(b, a)
  }

  ghost predicate MulAssociates<E>(F: Gf<E>, a: E, b: E, c: E) {
    F.mul(F.mul(a, b), c) == F.mul(a, F.mul(b, c))
  }

  ghost predicate Distributes<E>(F: Gf<E>, a: E, b: E, c: E) {
    F.mul(a, F.add(b, c)) == F.add(F.mul(a, b), F.mul(a, c))
  }

  ghost predicate Inverts<E>(F: Gf<E>, a: E) {
    F.mul(F.one, a) == a && (a != F.zero ==> F.mul(a, F.inv(a)) == F.one)
  }

  ghost predicate IsField<E(!new)>(F: Gf<E>) {
    && F.one != F.zero
    && (forall a, b :: AddCommutes(F, a, b))
    && (forall a, b, c :: AddAssociates(F, a, b, c))
    && (forall a :: Cancels(F, a))
    && (forall a, b :: MulCommutes(F, a, b))
    && (forall a, b, c :: MulAssociates(F, a, b, c))
    && (forall a, b, c :: Distributes(F, a, b, c))
    && (forall a :: Inverts(F, a))
  }

  lemma AddZero<E(!new)>(F: Gf<E>, a: E)
    requires IsField(F)
    ensures F.add(a, F.zero) == a && F.add(F.zero, a) == a
  {
    assert Cancels(F, a) && AddCommutes(F, a, F.zero);
  }

  /** (a + b) + b = a */
  lemma AddCancel<E(!new)>(F: Gf<E>, a: E, b: E)
    requires IsField(F)
    ensures F.add(F.add(a, b), b) == a
  {
    assert AddAssociates(F, a, b, b) && Cancels(F, b) && Cancels(F, a);
  }

  lemma SumNonzero<E(!new)>(F: Gf<E>, a: E, b: E)
    requires IsField(F) && a != b
    ensures F.add(a, b) != F.zero
  {
    AddCancel(F, a, b);
    AddZero(F, b);
  }

  /** (a + b) + (c + d) = (a + c) + (b + d) */
  lemma AddSwap<E(!new)>(F: Gf<E>, a: E, b: E, c: E, d: E)
    requires IsField(F)
    ensures F.add(F.add(a, b), F.add(c, d)) == F.add(F.add(a, c), F.add(b, d))
  {
    assert AddAssociates(F, a, b, F.add(c, d)) && AddAssociates(F, b, c, d) && AddCommutes(F, b, c)
        && AddAssociates(F, c, b, d) && AddAssociates(F, a, c, F.add(b, d));
  }

  /** (a + y) + (b + y) = a + b */
  lemma Telescope<E(!new)>(F: Gf<E>, a: E, b: E, y: E)
    requires IsField(F)
    ensures F.add(F.add(a, y), F.add(b, y)) == F.add(a, b)
  {
    AddSwap(F, a, y, b, y);
    assert Cancels(F, y) && Cancels(F, F.add(a, b));
  }

  lemma MulZero<E(!new)>(F: Gf<E>, a: E)
    requires IsField(F)
    ensures F.mul(a, F.zero) == F.zero && F.mul(F.zero, a) == F.zero
  {
    assert Cancels(F, F.zero) && Cancels(F, F.mul(a, F.zero));
    assert Distributes(F, a, F.zero, F.zero);
    assert MulCommutes(F, a, F.zero);
  }

  lemma MulOne<E(!new)>(F: Gf<E>, a: E)
    requires IsField(F)
    ensures F.mul(a, F.one) == a && F.mul(F.one, a) == a
  {
    assert Inverts(F, a) && MulCommutes(F, a, F.one);
  }

  /** (a + b) c = a c + b c */
  lemma DistributeRight<E(!new)>(F: Gf<E>, a: E, b: E, c: E)
    requires IsField(F)
    ensures F.mul(F.add(a, b), c) == F.add(F.mul(a, c), F.mul(b, c))
  {
    assert MulCommutes(F, F.add(a, b), c) && MulCommutes(F, a, c) && MulCommutes(F, b, c) && Distributes(F, c, a, b);
  }

  /** (a b) c = (a c) b */
  lemma MulSwap<E(!new)>(F: Gf<E>, a: E, b: E, c: E)
    requires IsField(F)
    ensures F.mul(F.mul(a, b), c) == F.mul(F.mul(a, c), b)
  {
    assert MulAssociates(F, a, b, c) && MulAssociates(F, a, c, b) && MulCommutes(F, b, c);
  }

  /** a (b / a) = b = (b a) / a */
  lemma DivideOut<E(!new)>(F: Gf<E>, a: E, b: E)
    requires IsField(F) && a != F.zero
    ensures F.mul(a, F.mul(b, F.inv(a))) == b && F.mul(F.mul(b, a), F.inv(a)) == b
  {
    assert MulCommutes(F, a, F.mul(b, F.inv(a))) && Inverts(F, a) && MulAssociates(F, b, a, F.inv(a));
    MulSwap(F, b, F.inv(a), a);
    MulOne(F, b);
  }

  lemma InvNonzero<E(!new)>(F: Gf<E>, a: E)
    requires IsField(F) && a != F.zero
    ensures F.inv(a) != F.zero
  {
    assert Inverts(F, a);
    MulZero(F, a);
  }

  lemma MulNonzero<E(!new)>(F: Gf<E>, a: E, b: E)
    requires IsField(F) && a != F.zero && b != F.zero
    ensures F.mul(a, b) != F.zero
  {
    DivideOut(F, b, a);
    MulZero(F, F.inv(b));
  }
}
