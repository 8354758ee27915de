/** Octets of bits, least significant first, with the product modulo x^8 + x^4 + x^3 + x^2 + 1. */
module Octets {
  import opened Shifts

  type Octet = s: seq<bool> | |s| == 8 witness [false, false, false, false, false, false, false, false]

  function Zero(): Octet {
    seq(8, i => false)
  }

  function Add(a: Octet, b: Octet): Octet {
    seq(8, i requires 0 <= i < 8 => a[i] != b[i])
  }

  /** The product with x, reduced by the polynomial. */
  function Double(a: Octet): Octet {
    seq(8, i requires 0 <= i < 8 => if i == 0 then a[7] else if i == 2 || i == 3 || i == 4 then a[i - 1] != a[7]
      else a[i - 1])
  }

  predicate Bit(a: Octet, i: nat) {
    i < 8 && a[i]
  }

  function Mask(i: nat): Octet {
    seq(8, j => i == j)
  }

  function Word(): Shift<Octet> {
    Shift(8, Zero(), Add, Double, Bit, Mask)
  }

  lemma {:induction false} LowBits(b: Octet, n: nat, j: nat)
    requires n <= 8 && j < 8
    ensures Low(Word(), b, n)[j] == (j < n && b[j])
  {
    if n > 0 { LowBits(b, n - 1, j); }
  }

  lemma SameBits(a: Octet, b: Octet)
    requires forall j: nat | j < 8 :: a[j] == b[j]
    ensures a == b
  {
  }

  lemma AllBits(b: Octet, n: nat)
    requires n == 8
    ensures Low(Word(), b, n) == b
  {
    forall j: nat | j < 8 ensures Low(Word(), b, n)[j] == b[j] { LowBits(b, n, j); }
    SameBits(Low(Word(), b, n), b);
  }

  lemma AddLaws(a: Octet, b: Octet, c: Octet, d: Octet)
    ensures Add(Add(a, b), Add(c, d)) == Add(Add(a, c), Add(b, d))
    ensures Add(a, Zero()) == a && Add(Zero(), a) == a && Add(a, a) == Zero()
  {
  }

  lemma DoubleOfSum(a: Octet, b: Octet)
    ensures Double(Add(a, b)) == Add(Double(a), Double(b))
  {
  }

  lemma DoubleOfMask(i: nat)
    requires i < 7
    ensures Double(Mask(i)) == Mask(i + 1)
  {
  }

  lemma WordIsShift()
    ensures IsShift(Word())
  {
    var S := Word();
    forall a, b, c, d ensures Shuffles(S, a, b, c, d) { AddLaws(a, b, c, d); }
    forall a ensures Cancels(S, a) { AddLaws(a, a, a, a); }
    forall a, b ensures DoubleAdds(S, a, b) { DoubleOfSum(a, b); }
    forall a, b, i ensures BitAdds(S, a, b, i) { }
    forall i: nat, j: nat | i < 8 && j < 8 ensures Masks(S, i, j) {
      if i < 7 { DoubleOfMask(i); }
    }
    forall b ensures HasAllBits(S, b) { AllBits(b, 8); }
  }
}
