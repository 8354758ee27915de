/** Products defined bit by bit: given an addition in which every element cancels itself, and an additive doubling, the
    product is commutative and associative. Each law is a predicate of its operands, so that a proof names the instances
    it uses. */
module Shifts {

  /** Addition and doubling; the bits of an element, and the elements with a single bit. */
  datatype Shift<!E> = Shift(width: nat, zero: E, add: (E, E) -> E, double: E -> E, bit: (E, nat) -> bool,
    mask: nat -> E)

  ghost predicate Shuffles<E>(S: Shift<E>, a: E, b: E, c: E, d: E) {
    S.add(S.add(a, b), S.add(c, d)) == S.add(S.add(a, c), S.add(b, d))
  }

  ghost predicate Cancels<E>(S: Shift<E>, a: E) {
    S.add(a, S.zero) == a && S.add(S.zero, a) == a && S.add(a, a) == S.zero
  }

  ghost predicate DoubleAdds<E>(S: Shift<E>, a: E, b: E) {
    S.double(S.add(a, b)) == S.add(S.double(a), S.double(b))
  }

  ghost predicate BitAdds<E>(S: Shift<E>, a: E, b: E, i: nat) {
    S.bit(S.add(a, b), i) <==> S.bit(a, i) != S.bit(b, i)
  }

  /** Mask i has bit i alone, and doubling goes from one to the next. */
  ghost predicate Masks<E>(S: Shift<E>, i: nat, j: nat) {
    (S.bit(S.mask(i), j) <==> i == j) && (i + 1 < S.width ==> S.double(S.mask(i)) == S.mask(i + 1))
  }

  function If<E>(S: Shift<E>, bit: bool, a: E): E {
    if bit then a else S.zero
  }

  /** The low n bits of b. */
  function Low<E>(S: Shift<E>, b: E, n: nat): E {
    if n == 0 then S.zero else S.add(Low(S, b, n - 1), If(S, S.bit(b, n - 1), S.mask(n - 1)))
  }

  ghost predicate HasAllBits<E>(S: Shift<E>, b: E) {
    Low(S, b, S.width) == b
  }

  ghost predicate IsShift<E(!new)>(S: Shift<E>) {
    && (forall a, b, c, d :: Shuffles(S, a, b, c, d))
    && (forall a :: Cancels(S, a))
    && (forall a, b :: DoubleAdds(S, a, b))
    && (forall a, b, i :: BitAdds(S, a, b, i))
    && (forall i: nat, j: nat | i < S.width && j < S.width :: Masks(S, i, j))
    && (forall b :: HasAllBits(S, b))
  }

  /** a doubled i times. */
  function Power<E>(S: Shift<E>, a: E, i: nat): E {
    if i == 0 then a else S.double(Power(S, a, i - 1))
  }

  /** a, doubled once per bit, added up over the low n bits of b. */
  function Sum<E>(S: Shift<E>, a: E, b: E, n: nat): E {
    if n == 0 then S.zero else S.add(Sum(S, a, b, n - 1), If(S, S.bit(b, n - 1), Power(S, a, n - 1)))
  }

  function Mul<E>(S: Shift<E>, a: E, b: E): E {
    Sum(S, a, b, S.width)
  }

  // ----- the product

  lemma {:induction false} PowerAdds<E(!new)>(S: Shift<E>, a: E, b: E, i: nat)
    requires IsShift(S)
    ensures Power(S, S.add(a, b), i) == S.add(Power(S, a, i), Power(S, b, i))
  {
    if i > 0 {
      PowerAdds(S, a, b, i - 1);
      assert DoubleAdds(S, Power(S, a, i - 1), Power(S, b, i - 1));
    }
  }

  lemma {:induction false} PowerOfDouble<E(!new)>(S: Shift<E>, a: E, i: nat)
    ensures Power(S, S.double(a), i) == S.double(Power(S, a, i))
  {
    if i > 0 { PowerOfDouble(S, a, i - 1); }
  }

  lemma IfAdds<E(!new)>(S: Shift<E>, x: bool, y: bool, a: E, b: E)
    requires IsShift(S)
    ensures If(S, x != y, a) == S.add(If(S, x, a), If(S, y, a))
    ensures If(S, x, S.add(a, b)) == S.add(If(S, x, a), If(S, x, b))
  {
    assert Cancels(S, a) && Cancels(S, S.zero);
  }

  lemma {:induction false} SumAddsRight<E(!new)>(S: Shift<E>, a: E, b: E, c: E, n: nat)
    requires IsShift(S)
    ensures Sum(S, a, S.add(b, c), n) == S.add(Sum(S, a, b, n), Sum(S, a, c, n))
  {
    if n == 0 {
      assert Cancels(S, S.zero);
    } else {
      SumAddsRight(S, a, b, c, n - 1);
      var p, x, y := Power(S, a, n - 1), S.bit(b, n - 1), S.bit(c, n - 1);
      assert BitAdds(S, b, c, n - 1);
      IfAdds(S, x, y, p, p);
      assert Shuffles(S, Sum(S, a, b, n - 1), Sum(S, a, c, n - 1), If(S, x, p), If(S, y, p));
    }
  }

  lemma {:induction false} SumAddsLeft<E(!new)>(S: Shift<E>, a: E, b: E, c: E, n: nat)
    requires IsShift(S)
    ensures Sum(S, S.add(a, b), c, n) == S.add(Sum(S, a, c, n), Sum(S, b, c, n))
  {
    if n == 0 {
      assert Cancels(S, S.zero);
    } else {
      SumAddsLeft(S, a, b, c, n - 1);
      PowerAdds(S, a, b, n - 1);
      var x, p, q := S.bit(c, n - 1), Power(S, a, n - 1), Power(S, b, n - 1);
      IfAdds(S, x, x, p, q);
      assert Shuffles(S, Sum(S, a, c, n - 1), Sum(S, b, c, n - 1), If(S, x, p), If(S, x, q));
    }
  }

  lemma MulAdds<E(!new)>(S: Shift<E>, a: E, b: E, c: E)
    requires IsShift(S)
    ensures Mul(S, a, S.add(b, c)) == S.add(Mul(S, a, b), Mul(S, a, c))
    ensures Mul(S, S.add(b, c), a) == S.add(Mul(S, b, a), Mul(S, c, a))
  {
    SumAddsRight(S, a, b, c, S.width);
    SumAddsLeft(S, b, c, a, S.width);
  }

  lemma {:induction false} SumAtMask<E(!new)>(S: Shift<E>, a: E, i: nat, n: nat)
    requires IsShift(S) && i < S.width && n <= S.width
    ensures Sum(S, a, S.mask(i), n) == if i < n then Power(S, a, i) else S.zero
  {
    if n > 0 {
      SumAtMask(S, a, i, n - 1);
      assert Masks(S, i, n - 1) && Cancels(S, Power(S, a, i)) && Cancels(S, S.zero);
    }
  }

  lemma MulAtMask<E(!new)>(S: Shift<E>, a: E, i: nat)
    requires IsShift(S) && i < S.width
    ensures Mul(S, a, S.mask(i)) == Power(S, a, i)
  {
    SumAtMask(S, a, i, S.width);
  }

  lemma DoubleZero<E(!new)>(S: Shift<E>)
    requires IsShift(S)
    ensures S.double(S.zero) == S.zero
  {
    assert Cancels(S, S.zero) && DoubleAdds(S, S.zero, S.zero) && Cancels(S, S.double(S.zero));
  }

  lemma {:induction false} SumDoubleLeft<E(!new)>(S: Shift<E>, a: E, b: E, n: nat)
    requires IsShift(S)
    ensures Sum(S, S.double(a), b, n) == S.double(Sum(S, a, b, n))
  {
    DoubleZero(S);
    if n > 0 {
      SumDoubleLeft(S, a, b, n - 1);
      PowerOfDouble(S, a, n - 1);
      assert DoubleAdds(S, Sum(S, a, b, n - 1), If(S, S.bit(b, n - 1), Power(S, a, n - 1)));
    }
  }

  lemma {:induction false} PowerOfMul<E(!new)>(S: Shift<E>, a: E, b: E, i: nat)
    requires IsShift(S)
    ensures Mul(S, Power(S, a, i), b) == Power(S, Mul(S, a, b), i)
  {
    if i > 0 {
      PowerOfMul(S, a, b, i - 1);
      SumDoubleLeft(S, Power(S, a, i - 1), b, S.width);
    }
  }

  lemma {:induction false} PowerOfOne<E(!new)>(S: Shift<E>, i: nat)
    requires IsShift(S) && i < S.width
    ensures Power(S, S.mask(0), i) == S.mask(i)
  {
    if i > 0 {
      PowerOfOne(S, i - 1);
      assert Masks(S, i - 1, 0);
    }
  }

  lemma {:induction false} SumOfOne<E(!new)>(S: Shift<E>, b: E, n: nat)
    requires IsShift(S) && n <= S.width
    ensures Sum(S, S.mask(0), b, n) == Low(S, b, n)
  {
    if n > 0 {
      SumOfOne(S, b, n - 1);
      PowerOfOne(S, n - 1);
    }
  }

  lemma MulOneLeft<E(!new)>(S: Shift<E>, b: E)
    requires IsShift(S)
    ensures Mul(S, S.mask(0), b) == b
  {
    SumOfOne(S, b, S.width);
    assert HasAllBits(S, b);
  }

  lemma MulZero<E(!new)>(S: Shift<E>, a: E)
    requires IsShift(S)
    ensures Mul(S, a, S.zero) == S.zero && Mul(S, S.zero, a) == S.zero
  {
    MulAdds(S, a, S.zero, S.zero);
    assert Cancels(S, S.zero) && Cancels(S, Mul(S, a, S.zero)) && Cancels(S, Mul(S, S.zero, a));
  }

  lemma CommutesAtMask<E(!new)>(S: Shift<E>, a: E, i: nat)
    requires IsShift(S) && i < S.width
    ensures Mul(S, a, S.mask(i)) == Mul(S, S.mask(i), a)
  {
    MulAtMask(S, a, i);
    PowerOfOne(S, i);
    PowerOfMul(S, S.mask(0), a, i);
    MulOneLeft(S, a);
  }

  lemma {:induction false} CommutesAtLow<E(!new)>(S: Shift<E>, a: E, b: E, n: nat)
    requires IsShift(S) && n <= S.width
    ensures Mul(S, a, Low(S, b, n)) == Mul(S, Low(S, b, n), a)
  {
    MulZero(S, a);
    if n > 0 {
      CommutesAtLow(S, a, b, n - 1);
      CommutesAtMask(S, a, n - 1);
      MulAdds(S, a, Low(S, b, n - 1), If(S, S.bit(b, n - 1), S.mask(n - 1)));
    }
  }

  lemma MulCommutative<E(!new)>(S: Shift<E>, a: E, b: E)
    requires IsShift(S)
    ensures Mul(S, a, b) == Mul(S, b, a)
  {
    CommutesAtLow(S, a, b, S.width);
    assert HasAllBits(S, b);
  }

  lemma AssociatesAtMask<E(!new)>(S: Shift<E>, a: E, b: E, i: nat)
    requires IsShift(S) && i < S.width
    ensures Mul(S, Mul(S, a, b), S.mask(i)) == Mul(S, a, Mul(S, b, S.mask(i)))
  {
    MulAtMask(S, Mul(S, a, b), i);
    MulAtMask(S, b, i);
    MulCommutative(S, a, b);
    PowerOfMul(S, b, a, i);
    MulCommutative(S, Power(S, b, i), a);
  }

  lemma {:induction false} AssociatesAtLow<E(!new)>(S: Shift<E>, a: E, b: E, c: E, n: nat)
    requires IsShift(S) && n <= S.width
    ensures Mul(S, Mul(S, a, b), Low(S, c, n)) == Mul(S, a, Mul(S, b, Low(S, c, n)))
  {
    if n == 0 {
      MulZero(S, Mul(S, a, b));
      MulZero(S, b);
      MulZero(S, a);
    } else {
      AssociatesAtLow(S, a, b, c, n - 1);
      AssociatesAtMask(S, a, b, n - 1);
      MulZero(S, Mul(S, a, b));
      MulZero(S, b);
      MulZero(S, a);
      var low, bit := Low(S, c, n - 1), If(S, S.bit(c, n - 1), S.mask(n - 1));
      MulAdds(S, Mul(S, a, b), low, bit);
      MulAdds(S, b, low, bit);
      MulAdds(S, a, Mul(S, b, low), Mul(S, b, bit));
    }
  }

  lemma MulAssociative<E(!new)>(S: Shift<E>, a: E, b: E, c: E)
    requires IsShift(S)
    ensures Mul(S, Mul(S, a, b), c) == Mul(S, a, Mul(S, b, c))
  {
    AssociatesAtLow(S, a, b, c, S.width);
    assert HasAllBits(S, c);
  }
}
