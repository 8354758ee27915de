/** The contract of the codec's library can be met: bytes with the product modulo x^8 + x^4 + x^3 + x^2 + 1 are a field,
    and there is an inverter of matrices over it. */
module ByteField {
  import opened Bytes
  import opened Field
  import opened Finite
  import opened Generator
  import opened Linear
  import O = Octets
  import S = Shifts

  // ----- bytes and octets

  function ByteMask(i: nat): (mask: byte)
    ensures IsMask(mask)
  {
    if i == 0 then 1 else if i == 1 then 2 else if i == 2 then 4 else if i == 3 then 8
    else if i == 4 then 16 else if i == 5 then 32 else if i == 6 then 64 else 128
  }

  predicate IsMask(mask: byte) {
    mask == 1 || mask == 2 || mask == 4 || mask == 8 || mask == 16 || mask == 32 || mask == 64 || mask == 128
  }

  predicate BitAt(b: byte, i: nat) {
    b & ByteMask(i) != 0
  }

  function OfByte(b: byte): O.Octet {
    seq(8, i requires 0 <= i < 8 => BitAt(b, i))
  }

  function LowByte(o: O.Octet, n: nat): byte
    requires n <= 8
  {
    if n == 0 then 0 else LowByte(o, n - 1) ^ (if o[n - 1] then ByteMask(n - 1) else 0)
  }

  function ToByte(o: O.Octet): byte {
    LowByte(o, 8)
  }

  lemma SumAtMask(a: byte, b: byte, sum: byte, mask: byte)
    requires sum == a ^ b && IsMask(mask)
    ensures sum & mask != 0 <==> ((a & mask != 0) != (b & mask != 0))
  {
  }

  lemma BitAtMask(b: byte, i: nat, mask: byte)
    requires mask == ByteMask(i)
    ensures BitAt(b, i) <==> b & mask != 0
  {
  }

  lemma BitOfSumAt(a: byte, b: byte, sum: byte, i: nat, mask: byte)
    requires sum == a ^ b && mask == ByteMask(i)
    ensures BitAt(sum, i) <==> BitAt(a, i) != BitAt(b, i)
  {
    BitAtMask(a, i, mask);
    BitAtMask(b, i, mask);
    BitAtMask(sum, i, mask);
    SumAtMask(a, b, sum, mask);
  }

  lemma BitOfSum(a: byte, b: byte, sum: byte, i: nat)
    requires sum == a ^ b
    ensures BitAt(sum, i) <==> BitAt(a, i) != BitAt(b, i)
  {
    BitOfSumAt(a, b, sum, i, ByteMask(i));
  }

  lemma OfSum(a: byte, b: byte, sum: byte)
    requires sum == a ^ b
    ensures OfByte(sum) == O.Add(OfByte(a), OfByte(b))
  {
    forall i: nat | i < 8 ensures OfByte(sum)[i] == O.Add(OfByte(a), OfByte(b))[i] { BitOfSum(a, b, sum, i); }
  }

  lemma BitOfMask(i: nat, j: nat)
    requires i < 8 && j < 8
    ensures BitAt(ByteMask(i), j) <==> i == j
  {
  }

  lemma BitOfZero(j: nat)
    ensures !BitAt(0, j)
  {
  }

  lemma BitOfTerm(isSet: bool, n: nat, j: nat, term: byte)
    requires n < 8 && j < 8 && term == if isSet then ByteMask(n) else 0
    ensures BitAt(term, j) <==> isSet && j == n
  {
    BitOfZero(j);
    BitOfMask(n, j);
  }

  lemma {:induction false} BitOfLow(o: O.Octet, n: nat, j: nat)
    requires n <= 8 && j < 8
    ensures BitAt(LowByte(o, n), j) <==> j < n && o[j]
  {
    if n == 0 {
      BitOfZero(j);
    } else {
      BitOfLow(o, n - 1, j);
      var term := if o[n - 1] then ByteMask(n - 1) else 0;
      BitOfTerm(o[n - 1], n - 1, j, term);
      BitOfSum(LowByte(o, n - 1), term, LowByte(o, n), j);
    }
  }

  lemma OfTo(o: O.Octet)
    ensures OfByte(ToByte(o)) == o
  {
    forall i: nat | i < 8 ensures OfByte(ToByte(o))[i] == o[i] { BitOfLow(o, 8, i); }
  }

  lemma SameBits(a: byte, b: byte)
    requires forall i: nat | i < 8 :: BitAt(a, i) == BitAt(b, i)
    ensures a == b
  {
    assert BitAt(a, 0) == BitAt(b, 0) && BitAt(a, 1) == BitAt(b, 1) && BitAt(a, 2) == BitAt(b, 2)
           && BitAt(a, 3) == BitAt(b, 3);
    assert BitAt(a, 4) == BitAt(b, 4) && BitAt(a, 5) == BitAt(b, 5) && BitAt(a, 6) == BitAt(b, 6)
           && BitAt(a, 7) == BitAt(b, 7);
  }

  lemma ToOf(b: byte)
    ensures ToByte(OfByte(b)) == b
  {
    forall i: nat | i < 8 ensures BitAt(ToByte(OfByte(b)), i) == BitAt(b, i) { BitOfLow(OfByte(b), 8, i); }
    SameBits(ToByte(OfByte(b)), b);
  }

  /** The product with x. */
  function Double(a: byte): byte {
    (a + a) ^ (if a & 0x80 != 0 then 0x1d else 0)
  }

  lemma DoubledBits(a: byte, double: byte)
    requires double == (a + a) ^ (if a & 0x80 != 0 then 0x1d else 0)
    ensures (double & 1 != 0) == (a & 128 != 0)
    ensures (double & 2 != 0) == (a & 1 != 0)
    ensures (double & 4 != 0) == ((a & 2 != 0) != (a & 128 != 0))
    ensures (double & 8 != 0) == ((a & 4 != 0) != (a & 128 != 0))
    ensures (double & 16 != 0) == ((a & 8 != 0) != (a & 128 != 0))
    ensures (double & 32 != 0) == (a & 16 != 0)
    ensures (double & 64 != 0) == (a & 32 != 0)
    ensures (double & 128 != 0) == (a & 64 != 0)
  {
  }

  lemma BitOfDouble(a: byte, double: byte, i: nat)
    requires double == Double(a) && i < 8
    ensures BitAt(double, i) == if i == 0 then BitAt(a, 7) else if i == 2 || i == 3 || i == 4
            then BitAt(a, i - 1) != BitAt(a, 7) else BitAt(a, i - 1)
  {
    DoubledBits(a, double);
  }

  lemma OfDouble(a: byte, double: byte)
    requires double == Double(a)
    ensures OfByte(double) == O.Double(OfByte(a))
  {
    forall i: nat | i < 8 ensures OfByte(double)[i] == O.Double(OfByte(a))[i] { BitOfDouble(a, double, i); }
  }

  // ----- the product

  function Product(a: byte, b: byte): byte {
    ToByte(S.Mul(O.Word(), OfByte(a), OfByte(b)))
  }

  lemma OfProduct(a: byte, b: byte)
    ensures OfByte(Product(a, b)) == S.Mul(O.Word(), OfByte(a), OfByte(b))
  {
    OfTo(S.Mul(O.Word(), OfByte(a), OfByte(b)));
  }

  lemma ProductCommutes(a: byte, b: byte)
    ensures Product(a, b) == Product(b, a)
  {
    O.WordIsShift();
    S.MulCommutative(O.Word(), OfByte(a), OfByte(b));
  }

  lemma ProductAssociates(a: byte, b: byte, c: byte)
    ensures Product(Product(a, b), c) == Product(a, Product(b, c))
  {
    O.WordIsShift();
    OfProduct(a, b);
    OfProduct(b, c);
    S.MulAssociative(O.Word(), OfByte(a), OfByte(b), OfByte(c));
  }

  lemma OctetsDistribute(a: O.Octet, b: O.Octet, c: O.Octet)
    ensures S.Mul(O.Word(), a, O.Add(b, c)) == O.Add(S.Mul(O.Word(), a, b), S.Mul(O.Word(), a, c))
  {
    O.WordIsShift();
    S.MulAdds(O.Word(), a, b, c);
  }

  lemma OfSumOfProducts(a: byte, b: byte, c: byte, ab: byte, ac: byte, products: byte)
    requires ab == Product(a, b) && ac == Product(a, c) && products == ab ^ ac
    ensures OfByte(products) == O.Add(S.Mul(O.Word(), OfByte(a), OfByte(b)), S.Mul(O.Word(), OfByte(a), OfByte(c)))
  {
    OfProduct(a, b);
    OfProduct(a, c);
    OfSum(ab, ac, products);
  }

  lemma OfProductOfSum(a: byte, b: byte, c: byte, sum: byte, ab: byte, ac: byte, products: byte)
    requires sum == b ^ c && ab == Product(a, b) && ac == Product(a, c) && products == ab ^ ac
    ensures OfByte(products) == S.Mul(O.Word(), OfByte(a), OfByte(sum))
  {
    OfSum(b, c, sum);
    OfSumOfProducts(a, b, c, ab, ac, products);
    OctetsDistribute(OfByte(a), OfByte(b), OfByte(c));
  }

  lemma ProductIs(a: byte, b: byte, product: byte)
    requires OfByte(product) == S.Mul(O.Word(), OfByte(a), OfByte(b))
    ensures Product(a, b) == product
  {
    ToOf(product);
  }

  lemma ProductOfSum(a: byte, b: byte, c: byte, sum: byte, products: byte)
    requires sum == b ^ c && products == Product(a, b) ^ Product(a, c)
    ensures Product(a, sum) == products
  {
    OfProductOfSum(a, b, c, sum, Product(a, b), Product(a, c), products);
    ProductIs(a, sum, products);
  }

  lemma OfOne()
    ensures OfByte(1) == O.Mask(0)
  {
    forall i: nat | i < 8 ensures OfByte(1)[i] == O.Mask(0)[i] { BitOfMask(0, i); }
  }

  lemma ProductOfOne(a: byte)
    ensures Product(1, a) == a
  {
    O.WordIsShift();
    OfOne();
    S.MulOneLeft(O.Word(), OfByte(a));
    ToOf(a);
  }

  // ----- no product of nonzero bytes is zero

  lemma OfZero()
    ensures OfByte(0) == O.Zero()
  {
    forall i: nat | i < 8 ensures OfByte(0)[i] == O.Zero()[i] { BitOfZero(i); }
  }

  lemma OfSumStep(low: byte, term: byte, power: byte, bit: bool, sum: byte)
    requires term == (if bit then power else 0) && sum == low ^ term
    ensures OfByte(sum) == O.Add(OfByte(low), S.If(O.Word(), bit, OfByte(power)))
  {
    OfZero();
    OfSum(low, term, sum);
  }

  ghost predicate IsPower(a: byte, i: nat, power: byte) {
    OfByte(power) == S.Power(O.Word(), OfByte(a), i)
  }

  ghost predicate IsSum(a: byte, b: byte, i: nat, low: byte) {
    OfByte(low) == S.Sum(O.Word(), OfByte(a), OfByte(b), i)
  }

  /** A step of the product: power is doubled, and added to low if b has the bit. */
  predicate IsStep(b: byte, power: byte, low: byte, mask: byte, double: byte, sum: byte) {
    double == (power + power) ^ (if power & 0x80 != 0 then 0x1d else 0)
      && sum == low ^ (if b & mask != 0 then power else 0)
  }

  lemma PowerStep(a: byte, b: byte, i: nat, power: byte, low: byte, mask: byte, double: byte, sum: byte)
    requires IsPower(a, i, power) && IsStep(b, power, low, mask, double, sum)
    ensures IsPower(a, i + 1, double)
  {
    OfDouble(power, double);
  }

  lemma SumOfTerm(a: byte, b: byte, i: nat, power: byte, low: byte, term: byte, sum: byte)
    requires i < 8 && IsPower(a, i, power) && IsSum(a, b, i, low)
    requires term == (if BitAt(b, i) then power else 0) && sum == low ^ term
    ensures IsSum(a, b, i + 1, sum)
  {
    OfSumStep(low, term, power, BitAt(b, i), sum);
  }

  lemma StepTerm(b: byte, i: nat, power: byte, low: byte, mask: byte, double: byte, sum: byte) returns (term: byte)
    requires mask == ByteMask(i) && IsStep(b, power, low, mask, double, sum)
    ensures term == (if BitAt(b, i) then power else 0) && sum == low ^ term
  {
    term := if b & mask != 0 then power else 0;
  }

  lemma SumStep(a: byte, b: byte, i: nat, power: byte, low: byte, mask: byte, double: byte, sum: byte)
    requires i < 8 && IsPower(a, i, power) && IsSum(a, b, i, low) && mask == ByteMask(i)
             && IsStep(b, power, low, mask, double, sum)
    ensures IsSum(a, b, i + 1, sum)
  {
    var term := StepTerm(b, i, power, low, mask, double, sum);
    SumOfTerm(a, b, i, power, low, term, sum);
  }

  /** After i steps of the product, power is a doubled i times and low the sum of the first i terms. */
  ghost predicate Partial(a: byte, b: byte, i: nat, power: byte, low: byte) {
    IsPower(a, i, power) && IsSum(a, b, i, low)
  }

  lemma PartialStep(a: byte, b: byte, i: nat, power: byte, low: byte, double: byte, sum: byte)
    requires i < 8 && Partial(a, b, i, power, low) && IsStep(b, power, low, ByteMask(i), double, sum)
    ensures Partial(a, b, i + 1, double, sum)
  {
    PowerStep(a, b, i, power, low, ByteMask(i), double, sum);
    SumStep(a, b, i, power, low, ByteMask(i), double, sum);
  }

  /** Among the 2^16 pairs of bytes only those with a zero have product zero. */
  lemma NoZeroWord(a0: byte, a1: byte, a2: byte, a3: byte, a4: byte, a5: byte, a6: byte, a7: byte, b: byte,
                   s1: byte, s2: byte, s3: byte, s4: byte, s5: byte, s6: byte, s7: byte)
    requires a1 == (a0 + a0) ^ (if a0 & 0x80 != 0 then 0x1d else 0) && s1 == 0 ^ (if b & 1 != 0 then a0 else 0)
    requires a2 == (a1 + a1) ^ (if a1 & 0x80 != 0 then 0x1d else 0) && s2 == s1 ^ (if b & 2 != 0 then a1 else 0)
    requires a3 == (a2 + a2) ^ (if a2 & 0x80 != 0 then 0x1d else 0) && s3 == s2 ^ (if b & 4 != 0 then a2 else 0)
    requires a4 == (a3 + a3) ^ (if a3 & 0x80 != 0 then 0x1d else 0) && s4 == s3 ^ (if b & 8 != 0 then a3 else 0)
    requires a5 == (a4 + a4) ^ (if a4 & 0x80 != 0 then 0x1d else 0) && s5 == s4 ^ (if b & 16 != 0 then a4 else 0)
    requires a6 == (a5 + a5) ^ (if a5 & 0x80 != 0 then 0x1d else 0) && s6 == s5 ^ (if b & 32 != 0 then a5 else 0)
    requires a7 == (a6 + a6) ^ (if a6 & 0x80 != 0 then 0x1d else 0) && s7 == s6 ^ (if b & 64 != 0 then a6 else 0)
    requires s7 ^ (if b & 128 != 0 then a7 else 0) == 0
    ensures a0 == 0 || b == 0
  {
  }

  lemma NoZeroProduct(b: byte, a0: byte, a1: byte, a2: byte, a3: byte, a4: byte, a5: byte, a6: byte, a7: byte, a8: byte,
                      s1: byte, s2: byte, s3: byte, s4: byte, s5: byte, s6: byte, s7: byte)
    requires IsStep(b, a0, 0, 1, a1, s1) && IsStep(b, a1, s1, 2, a2, s2) && IsStep(b, a2, s2, 4, a3, s3)
             && IsStep(b, a3, s3, 8, a4, s4)
    requires IsStep(b, a4, s4, 16, a5, s5) && IsStep(b, a5, s5, 32, a6, s6) && IsStep(b, a6, s6, 64, a7, s7)
             && IsStep(b, a7, s7, 128, a8, 0)
    ensures a0 == 0 || b == 0
  {
    NoZeroWord(a0, a1, a2, a3, a4, a5, a6, a7, b, s1, s2, s3, s4, s5, s6, s7);
  }

  lemma PartialFirst(a: byte, b: byte, i: nat)
    requires i == 0
    ensures Partial(a, b, i, a, 0)
  {
    OfZero();
  }

  lemma PartialLast(a: byte, b: byte, i: nat, power: byte, sum: byte)
    requires Partial(a, b, i, power, sum) && i == 8
    ensures Product(a, b) == sum
  {
    ToOf(sum);
  }

  /** P, which stands for Partials(a, b), goes from each step of the product to the next. */
  ghost predicate Steps(P: (nat, byte, byte) -> bool, b: byte) {
    forall i: nat, power, low, double, sum | i < 8 && P(i, power, low)
      && IsStep(b, power, low, ByteMask(i), double, sum) :: P(i + 1, double, sum)
  }

  ghost predicate EndsIn(P: (nat, byte, byte) -> bool, n: nat, product: byte) {
    forall power, low | P(n, power, low) :: low == product
  }

  lemma Step(P: (nat, byte, byte) -> bool, b: byte, i: nat, power: byte, low: byte, mask: byte)
    returns (double: byte, sum: byte)
    requires Steps(P, b) && i < 8 && P(i, power, low) && mask == ByteMask(i)
    ensures P(i + 1, double, sum)
    ensures IsStep(b, power, low, mask, double, sum)
  {
    double := Double(power);
    sum := low ^ (if b & mask != 0 then power else 0);
    assert IsStep(b, power, low, ByteMask(i), double, sum);
  }

  lemma NoZeroChain(P: (nat, byte, byte) -> bool, a: byte, b: byte, n: nat)
    requires Steps(P, b) && P(0, a, 0) && n == 8 && EndsIn(P, n, 0)
    ensures a == 0 || b == 0
  {
    var a1, s1 := Step(P, b, 0, a, 0, 1);
    var a2, s2 := Step(P, b, 1, a1, s1, 2);
    var a3, s3 := Step(P, b, 2, a2, s2, 4);
    var a4, s4 := Step(P, b, 3, a3, s3, 8);
    var a5, s5 := Step(P, b, 4, a4, s4, 16);
    var a6, s6 := Step(P, b, 5, a5, s5, 32);
    var a7, s7 := Step(P, b, 6, a6, s6, 64);
    var a8, s8 := Step(P, b, 7, a7, s7, 128);
    NoZeroProduct(b, a, a1, a2, a3, a4, a5, a6, a7, a8, s1, s2, s3, s4, s5, s6, s7);
  }

  ghost function Partials(a: byte, b: byte): (nat, byte, byte) -> bool {
    (i: nat, power: byte, low: byte) => Partial(a, b, i, power, low)
  }

  lemma PartialSteps(a: byte, b: byte)
    ensures Steps(Partials(a, b), b)
  {
    var P := Partials(a, b);
    forall i: nat, power, low, double, sum | i < 8 && P(i, power, low)
      && IsStep(b, power, low, ByteMask(i), double, sum)
      ensures P(i + 1, double, sum)
    {
      PartialStep(a, b, i, power, low, double, sum);
    }
  }

  lemma PartialsEnd(a: byte, b: byte, n: nat)
    requires n == 8
    ensures EndsIn(Partials(a, b), n, Product(a, b))
  {
    forall power, low | Partials(a, b)(n, power, low) ensures low == Product(a, b) { PartialLast(a, b, n, power, low); }
  }

  lemma NoZeroFrom(a: byte, b: byte, m: nat, n: nat)
    requires a != 0 && b != 0 && m == 0 && n == 8
    ensures Product(a, b) != 0
  {
    PartialFirst(a, b, m);
    PartialSteps(a, b);
    PartialsEnd(a, b, n);
    if Product(a, b) == 0 { NoZeroChain(Partials(a, b), a, b, n); }
  }

  lemma NoZeroDivisors(a: byte, b: byte)
    requires a != 0 && b != 0
    ensures Product(a, b) != 0
  {
    NoZeroFrom(a, b, 0, 8);
  }

  // ----- the field, and the library over it

  lemma SumIsZero(a: byte, b: byte)
    ensures a ^ b == 0 <==> a == b
  {
  }

  lemma ProductInjective(a: byte, x: byte, y: byte)
    requires a != 0 && x != y
    ensures Product(a, x) != Product(a, y)
  {
    SumIsZero(x, y);
    NoZeroDivisors(a, x ^ y);
    ProductOfSum(a, x, y, x ^ y, Product(a, x) ^ Product(a, y));
    SumIsZero(Product(a, x), Product(a, y));
  }

  ghost function Times(a: byte): byte -> byte {
    x => Product(a, x)
  }

  /** The multiples of a nonzero byte are all bytes. */
  lemma Divides(a: byte, c: byte) returns (b: byte)
    requires a != 0
    ensures Product(a, b) == c
  {
    var f := Times(a);
    forall x, y | x in AllBytes() && y in AllBytes() && x != y ensures f(x) != f(y) { ProductInjective(a, x, y); }
    forall x | x in AllBytes() ensures f(x) in AllBytes() { InAllBytes(f(x)); }
    InAllBytes(c);
    b := InjectiveReaches(AllBytes(), f, c);
  }

  ghost predicate IsInverse(a: byte, b: byte) {
    Product(a, b) == 1
  }

  lemma HasInverse(a: byte)
    requires a != 0
    ensures exists b :: IsInverse(a, b)
  {
    var b := Divides(a, 1);
    assert IsInverse(a, b);
  }

  ghost function Inverse(a: byte): (b: byte)
    ensures a != 0 ==> IsInverse(a, b)
  {
    if a == 0 then 0
    else
      HasInverse(a);
      var b :| IsInverse(a, b);
      b
  }

  ghost function Bytes256(): Gf<byte> {
    Gf(0, 1, (a: byte, b: byte) => a ^ b, (a: byte, b: byte) => Product(a, b), (a: byte) => Inverse(a))
  }

  lemma XorLaws(a: byte, b: byte, c: byte)
    ensures a ^ b == b ^ a && (a ^ b) ^ c == a ^ (b ^ c) && a ^ 0 == a && a ^ a == 0
  {
  }

  lemma BytesAdd(a: byte, b: byte, c: byte)
    ensures AddCommutes(Bytes256(), a, b) && AddAssociates(Bytes256(), a, b, c) && Cancels(Bytes256(), a)
  {
    XorLaws(a, b, c);
  }

  lemma BytesMultiply(a: byte, b: byte)
    ensures MulCommutes(Bytes256(), a, b) && Inverts(Bytes256(), a)
  {
    ProductCommutes(a, b);
    ProductOfOne(a);
  }

  lemma BytesAssociate(a: byte, b: byte, c: byte)
    ensures MulAssociates(Bytes256(), a, b, c)
  {
    ProductAssociates(a, b, c);
  }

  lemma BytesDistribute(a: byte, b: byte, c: byte)
    ensures Distributes(Bytes256(), a, b, c)
  {
    var F := Bytes256();
    ProductOfSum(a, b, c, F.add(b, c), F.add(F.mul(a, b), F.mul(a, c)));
  }

  lemma BytesAreField()
    ensures IsField(Bytes256())
  {
    var F := Bytes256();
    forall a, b ensures AddCommutes(F, a, b) { BytesAdd(a, b, 0); }
    forall a, b, c ensures AddAssociates(F, a, b, c) { BytesAdd(a, b, c); }
    forall a ensures Cancels(F, a) { BytesAdd(a, 0, 0); }
    forall a, b ensures MulCommutes(F, a, b) { BytesMultiply(a, b); }
    forall a, b, c ensures MulAssociates(F, a, b, c) { BytesAssociate(a, b, c); }
    forall a, b, c ensures Distributes(F, a, b, c) { BytesDistribute(a, b, c); }
    forall a ensures Inverts(F, a) { BytesMultiply(a, 0); }
  }

  ghost predicate Invertible(B: Matrix<byte>) {
    exists N :: IsLeftInverse(Bytes256(), N, B, |B|)
  }

  ghost function InverseOf(B: Matrix<byte>): Option<Matrix<byte>> {
    if Invertible(B) then
      var N :| IsLeftInverse(Bytes256(), N, B, |B|);
      Some(N)
    else None
  }

  /** There is a library as the codec requires it, over the polynomial 0x11d. */
  lemma LibraryExists() returns (L: Isal)
    ensures IsIsal(L) && forall a, b :: L.gf.mul(a, b) == Product(a, b)
  {
    BytesAreField();
    L := Isal(Bytes256(), (B: Matrix<byte>) => InverseOf(B));
    forall a, b ensures AddIsXor(L.gf, a, b) { }
    forall B, N, k ensures InvertsMatrix(L, B, N, k) {
      if IsLeftInverse(L.gf, N, B, k) {
        assert k == |B| && Invertible(B);
      }
    }
  }
}
