/** The counting inside the network-wide search: concatenated blocks, increasing subsets, and mixed-radix digits. */
module Combos {
  import opened Bytes
  import opened Generator

  // ----- concatenating blocks

  /** f(0) + f(1) + ... + f(n - 1) */
  ghost function Gather<T>(n: nat, f: nat -> seq<T>): seq<T> {
    if n == 0 then [] else Gather(n - 1, f) + f(n - 1)
  }

  lemma {:induction false} GatherIn<T>(n: nat, f: nat -> seq<T>, x: T)
    ensures x in Gather(n, f) <==> exists i: nat :: i < n && x in f(i)
  {
    if n > 0 { GatherIn(n - 1, f, x); }
  }

  lemma {:induction false} NoDupAppend<T>(a: seq<T>, b: seq<T>)
    requires NoDup(a) && NoDup(b) && forall x | x in b :: x !in a
    ensures NoDup(a + b)
  {
    if b == [] {
      assert a + b == a;
    } else {
      var n := |b| - 1;
      NoDupAppend(a, b[..n]);
      assert (a + b)[..|a| + n] == a + b[..n];
    }
  }

  /** Blocks whose elements carry the number of their block do not repeat anything. */
  lemma {:induction false} GatherNoDup<T>(n: nat, f: nat -> seq<T>, key: T -> nat)
    requires forall i: nat | i < n :: NoDup(f(i)) && forall x | x in f(i) :: key(x) == i
    ensures NoDup(Gather(n, f))
  {
    if n > 0 {
      GatherNoDup(n - 1, f, key);
      var rest, last := Gather(n - 1, f), f(n - 1);
      forall x | x in last ensures x !in rest {
        GatherIn(n - 1, f, x);
      }
      NoDupAppend(rest, last);
    }
  }

  ghost function IndexOf<T>(s: seq<T>, x: T): nat {
    if s == [] then 0 else if s[|s| - 1] == x then |s| - 1 else IndexOf(s[..|s| - 1], x)
  }

  lemma {:induction false} IndexOfElement<T>(s: seq<T>, a: nat)
    requires NoDup(s) && a < |s|
    ensures IndexOf(s, s[a]) == a
  {
    if a < |s| - 1 {
      assert s[..|s| - 1][a] == s[a];
      IndexOfElement(s[..|s| - 1], a);
    }
  }

  // ----- running over a list

  ghost function Fold<S, A>(step: (S, A) -> S, xs: seq<A>, s: S): S {
    if xs == [] then s else step(Fold(step, xs[..|xs| - 1], s), xs[|xs| - 1])
  }

  lemma FoldNext<S, A>(step: (S, A) -> S, xs: seq<A>, x: A, s: S)
    ensures Fold(step, xs + [x], s) == step(Fold(step, xs, s), x)
  {
    assert (xs + [x])[..|xs|] == xs;
  }

  lemma {:induction false} FoldAppend<S, A>(step: (S, A) -> S, xs: seq<A>, ys: seq<A>, s: S)
    ensures Fold(step, xs + ys, s) == Fold(step, ys, Fold(step, xs, s))
  {
    if ys == [] {
      assert xs + ys == xs;
    } else {
      var n := |ys| - 1;
      FoldAppend(step, xs, ys[..n], s);
      FoldNext(step, xs + ys[..n], ys[n], s);
      assert xs + ys == xs + ys[..n] + [ys[n]];
    }
  }

  // ----- increasing subsets

  /** What combine2 appends: with the suffix fixed, all ways to choose m more numbers below n, increasing, avoiding
      ic. */
  function Subsets(n: nat, m: nat, suffix: seq<nat>, ic: nat): seq<seq<nat>>
    requires m > 0
    decreases m, n, 1
  {
    if n < m then [] else Topped(n, m, suffix, ic) + Subsets(n - 1, m, suffix, ic)
  }

  /** Those whose m-th number is n - 1. */
  function Topped(n: nat, m: nat, suffix: seq<nat>, ic: nat): seq<seq<nat>>
    requires 0 < m <= n
    decreases m, n, 0
  {
    var longer := [n - 1] + suffix;
    if m > 1 then Subsets(n - 1, m - 1, longer, ic) else if ic in longer then [] else [longer]
  }

  /** combine2: overwrites b from the back, and collects the result. */
  method Combine2(n: nat, m: nat, b: seq<nat>, ret0: seq<seq<nat>>, ic: nat) returns (ret: seq<seq<nat>>)
    requires 0 < m <= |b|
    ensures ret == ret0 + Subsets(n, m, b[m..], ic)
    decreases m
  {
    ret := ret0;
    var i: int, c: seq<nat> := n, b;
    while i >= m
      invariant i >= 0 && |c| == |b| && c[m..] == b[m..]
      invariant ret + Subsets(i, m, b[m..], ic) == ret0 + Subsets(n, m, b[m..], ic)
    {
      c := c[m - 1 := i - 1];
      assert c[m - 1..] == [i - 1] + b[m..];
      ghost var before := ret;
      if m > 1 {
        ret := Combine2(i - 1, m - 1, c, ret, ic);
      } else {
        assert c == [i - 1] + b[m..];
        var icIn := ic in c;
        if !icIn { ret := ret + [c]; }
      }
      assert ret == before + Topped(i, m, b[m..], ic);
      assert before + (Topped(i, m, b[m..], ic) + Subsets(i - 1, m, b[m..], ic)) == ret + Subsets(i - 1, m, b[m..], ic);
      i := i - 1;
    }
  }

  /** s extends the suffix by m increasing numbers below n, and avoids ic. */
  ghost predicate Extends(s: seq<nat>, n: nat, m: nat, suffix: seq<nat>, ic: nat) {
    |s| == m + |suffix| && s[m..] == suffix && Ascending(s[..m]) && Below(s[..m], n) && ic !in s
  }

  lemma {:induction false} SubsetsIn(n: nat, m: nat, suffix: seq<nat>, ic: nat, s: seq<nat>)
    requires m > 0
    ensures s in Subsets(n, m, suffix, ic) <==> Extends(s, n, m, suffix, ic)
    decreases m, n, 1
  {
    if n < m {
      if Extends(s, n, m, suffix, ic) { AscendingLength(s[..m], n); }
    } else {
      ToppedIn(n, m, suffix, ic, s);
      SubsetsIn(n - 1, m, suffix, ic, s);
      ExtendsSplit(s, n, m, suffix, ic);
    }
  }

  lemma {:induction false} ToppedIn(n: nat, m: nat, suffix: seq<nat>, ic: nat, s: seq<nat>)
    requires 0 < m <= n
    ensures s in Topped(n, m, suffix, ic) <==>
            if m > 1 then Extends(s, n - 1, m - 1, [n - 1] + suffix, ic) else s == [n - 1] + suffix && ic !in s
    decreases m, n, 0
  {
    if m > 1 { SubsetsIn(n - 1, m - 1, [n - 1] + suffix, ic, s); }
  }

  lemma TopAscends(front: seq<nat>, n: nat)
    requires n > 0
    ensures Ascending(front + [n - 1]) && Below(front + [n - 1], n) <==> Ascending(front) && Below(front, n - 1)
  {
    var u := front + [n - 1];
    assert u[..|front|] == front;
    if Ascending(u) { AscendingBelow(u); }
  }

  lemma LowAscends(u: seq<nat>, n: nat)
    requires n > 0 && u != [] && u[|u| - 1] != n - 1 && Ascending(u)
    ensures Below(u, n) <==> Below(u, n - 1)
  {
    AscendingBelow(u);
    if Below(u, n) {
      assert u[|u| - 1] < n - 1;
      forall i | 0 <= i < |u| - 1 ensures u[i] < n - 1 { assert u[..|u| - 1][i] == u[i]; }
    }
  }

  /** The numbers in front of the suffix: all but the last, and the last. */
  lemma FrontSplits(s: seq<nat>, m: nat, suffix: seq<nat>)
    requires 0 < m && |s| == m + |suffix|
    ensures s[..m] == s[..m - 1] + [s[m - 1]]
    ensures s[m..] == suffix <==> s[m - 1..] == [s[m - 1]] + suffix
  {
    assert s[m - 1..] == [s[m - 1]] + s[m..];
    assert s[m..] == s[m - 1..][1..];
  }

  /** The largest of the m numbers is n - 1, or all are below n - 1. */
  lemma ExtendsSplit(s: seq<nat>, n: nat, m: nat, suffix: seq<nat>, ic: nat)
    requires 0 < m <= n
    ensures m > 1 ==> (Extends(s, n, m, suffix, ic) <==>
                         Extends(s, n - 1, m - 1, [n - 1] + suffix, ic) || Extends(s, n - 1, m, suffix, ic))
    ensures m == 1 ==> (Extends(s, n, m, suffix, ic) <==>
                          (s == [n - 1] + suffix && ic !in s) || Extends(s, n - 1, m, suffix, ic))
  {
    if |s| == m + |suffix| {
      FrontSplits(s, m, suffix);
      if s[m - 1] == n - 1 {
        TopAscends(s[..m - 1], n);
        assert s[..m][m - 1] == n - 1;
      } else if Ascending(s[..m]) {
        LowAscends(s[..m], n);
      }
    }
  }

  lemma {:induction false} AscendingLength(s: seq<nat>, n: nat)
    requires Ascending(s) && Below(s, n)
    ensures |s| <= n
  {
    if s != [] {
      AscendingBelow(s);
      AscendingLength(s[..|s| - 1], s[|s| - 1]);
    }
  }

  /** The m-th number of a listed subset is below n. */
  lemma SubsetsHead(n: nat, m: nat, suffix: seq<nat>, ic: nat, s: seq<nat>)
    requires m > 0 && s in Subsets(n, m, suffix, ic)
    ensures |s| >= m && s[m - 1] < n
  {
    SubsetsIn(n, m, suffix, ic, s);
    assert s[..m][m - 1] == s[m - 1];
  }

  lemma ToppedHead(n: nat, m: nat, suffix: seq<nat>, ic: nat, s: seq<nat>)
    requires 0 < m <= n && s in Topped(n, m, suffix, ic)
    ensures |s| >= m && s[m - 1] == n - 1
  {
    ToppedIn(n, m, suffix, ic, s);
    assert m > 1 ==> s[m - 1..][0] == s[m - 1];
  }

  lemma NoDupSplit<T>(a: seq<T>, b: seq<T>, p: T -> bool)
    requires NoDup(a) && NoDup(b) && (forall x | x in a :: p(x)) && forall x | x in b :: !p(x)
    ensures NoDup(a + b)
  {
    NoDupAppend(a, b);
  }

  lemma {:induction false} SubsetsNoDup(n: nat, m: nat, suffix: seq<nat>, ic: nat)
    requires m > 0
    ensures NoDup(Subsets(n, m, suffix, ic))
    decreases m, n, 1
  {
    if n >= m {
      var tops := (s: seq<nat>) => |s| >= m && s[m - 1] == n - 1;
      ToppedNoDup(n, m, suffix, ic);
      SubsetsNoDup(n - 1, m, suffix, ic);
      forall s | s in Topped(n, m, suffix, ic) ensures tops(s) { ToppedHead(n, m, suffix, ic, s); }
      forall s | s in Subsets(n - 1, m, suffix, ic) ensures !tops(s) { SubsetsHead(n - 1, m, suffix, ic, s); }
      NoDupSplit(Topped(n, m, suffix, ic), Subsets(n - 1, m, suffix, ic), tops);
    }
  }

  lemma {:induction false} ToppedNoDup(n: nat, m: nat, suffix: seq<nat>, ic: nat)
    requires 0 < m <= n
    ensures NoDup(Topped(n, m, suffix, ic))
    decreases m, n, 0
  {
    if m > 1 { SubsetsNoDup(n - 1, m - 1, [n - 1] + suffix, ic); }
  }

  /** combine2, called with nothing fixed, lists each increasing m-subset of the numbers below n that avoids ic,
      once. */
  lemma SubsetsExactlyOnce(n: nat, m: nat, ic: nat)
    requires m > 0
    ensures NoDup(Subsets(n, m, [], ic))
    ensures forall s :: s in Subsets(n, m, [], ic) <==> |s| == m && Ascending(s) && Below(s, n) && ic !in s
  {
    SubsetsNoDup(n, m, [], ic);
    forall s: seq<nat> ensures s in Subsets(n, m, [], ic) <==> |s| == m && Ascending(s) && Below(s, n) && ic !in s {
      SubsetsIn(n, m, [], ic, s);
      if |s| == m { assert s[..m] == s && s[m..] == []; }
    }
  }

  // ----- digits

  function MyPow(a: nat, b: nat): nat {
    if b == 0 then 1 else if b == 1 then a else a * MyPow(a, b - 1)
  }

  /** Digit d of c in base s, as the search computes it. */
  function Digit(c: nat, s: nat, d: nat): nat
    requires s > 0
  {
    PowPositive(s, d);
    PowPositive(s, d + 1);
    c % MyPow(s, d + 1) / MyPow(s, d)
  }

  function Digits(c: nat, s: nat, n: nat): (v: seq<nat>)
    requires s > 0
    ensures |v| == n
  {
    seq(n, d requires 0 <= d < n => Digit(c, s, d))
  }

  /** The number with the given digits, lowest first. */
  ghost function Value(v: seq<nat>, s: nat): nat {
    if v == [] then 0 else Value(v[..|v| - 1], s) + v[|v| - 1] * MyPow(s, |v| - 1)
  }

  lemma {:induction false} PowPositive(s: nat, d: nat)
    requires s > 0
    ensures MyPow(s, d) > 0
  {
    if d > 1 { PowPositive(s, d - 1); }
  }

  lemma PowNext(s: nat, d: nat)
    ensures MyPow(s, d + 1) == s * MyPow(s, d)
  {
  }

  lemma MulMono(a: int, b: int, k: nat)
    requires a <= b
    ensures a * k <= b * k
  {
  }

  lemma MulNext(a: int, k: nat)
    ensures (a + 1) * k == a * k + k
  {
  }

  lemma MulShuffle(q: nat, a: nat, b: nat, t: nat)
    ensures q * (a * b) + t * a == (q * b + t) * a
  {
    assert q * (a * b) == q * b * a;
  }

  lemma DivMod(c: nat, b: nat)
    requires b > 0
    ensures c == c / b * b + c % b && c % b < b
  {
  }

  lemma DivModUnique(c: nat, b: nat, q: nat, r: nat)
    requires b > 0 && c == q * b + r && r < b
    ensures c / b == q && c % b == r
  {
    DivMod(c, b);
    var q' := c / b;
    MulNext(q, b);
    MulNext(q', b);
    if q' < q { MulMono(q' + 1, q, b); } else if q < q' { MulMono(q + 1, q', b); }
  }

  /** Reducing modulo a multiple of a changes nothing modulo a. */
  lemma ModMod(c: nat, a: nat, b: nat)
    requires a > 0 && b > 0
    ensures a * b > 0 && c % (a * b) % a == c % a
  {
    MulMono(1, a, b);
    var q, r := c / (a * b), c % (a * b);
    DivMod(c, a * b);
    DivMod(r, a);
    MulShuffle(q, a, b, r / a);
    DivModUnique(c, a, q * b + r / a, r % a);
  }

  lemma {:induction false} PowDivides(s: nat, d: nat, n: nat) returns (f: nat)
    requires s > 0 && d <= n
    ensures f > 0 && MyPow(s, n) == MyPow(s, d) * f
  {
    if d == n {
      f := 1;
    } else {
      var g := PowDivides(s, d, n - 1);
      f := s * g;
      PowNext(s, n - 1);
      assert s * (MyPow(s, d) * g) == MyPow(s, d) * (s * g);
    }
  }

  /** The lower digits depend on the remainder only. */
  lemma DigitOfRest(c: nat, s: nat, d: nat, n: nat)
    requires s > 0 && d < n
    ensures MyPow(s, n) > 0 && Digit(c % MyPow(s, n), s, d) == Digit(c, s, d)
  {
    PowPositive(s, n);
    PowPositive(s, d + 1);
    var f := PowDivides(s, d + 1, n);
    ModMod(c, MyPow(s, d + 1), f);
  }

  lemma TopDigit(c: nat, s: nat, n: nat)
    requires s > 0 && c < MyPow(s, n + 1)
    ensures MyPow(s, n) > 0 && Digit(c, s, n) == c / MyPow(s, n) < s
  {
    PowPositive(s, n);
    PowNext(s, n);
    var b := MyPow(s, n);
    var q := c / b;
    DivMod(c, b);
    if q >= s { MulMono(s, q, b); }
    DivModUnique(c, MyPow(s, n + 1), 0, c);
  }

  lemma ValueNext(v: seq<nat>, x: nat, s: nat)
    ensures Value(v + [x], s) == Value(v, s) + x * MyPow(s, |v|)
  {
    assert (v + [x])[..|v|] == v;
  }

  /** The highest digit, and what is left. */
  lemma DigitsNext(c: nat, s: nat, n: nat) returns (q: nat, r: nat)
    requires s > 0 && c < MyPow(s, n + 1)
    ensures c == q * MyPow(s, n) + r && r < MyPow(s, n) && q < s
    ensures Digits(c, s, n + 1) == Digits(r, s, n) + [q]
  {
    TopDigit(c, s, n);
    DivMod(c, MyPow(s, n));
    q, r := c / MyPow(s, n), c % MyPow(s, n);
    forall d: nat | d < n ensures Digit(c, s, d) == Digit(r, s, d) { DigitOfRest(c, s, d, n); }
  }

  lemma DigitSmall(c: nat, s: nat, d: nat)
    requires s > 0
    ensures Digit(c, s, d) < s
  {
    PowPositive(s, d);
    PowPositive(s, d + 1);
    PowNext(s, d);
    var b, r := MyPow(s, d), c % MyPow(s, d + 1);
    DivMod(r, b);
    DivMod(c, MyPow(s, d + 1));
    if r / b >= s { MulMono(s, r / b, b); }
  }

  /** A number is the value of its digits if what is left below the highest digit is. */
  lemma ValueOfNext(c: nat, s: nat, n: nat) returns (r: nat)
    requires s > 0 && c < MyPow(s, n + 1)
    ensures r < MyPow(s, n)
    ensures Value(Digits(r, s, n), s) == r ==> Value(Digits(c, s, n + 1), s) == c
  {
    var q;
    q, r := DigitsNext(c, s, n);
    ValueNext(Digits(r, s, n), q, s);
  }

  /** Every number is the value of its digits. */
  lemma {:induction false} ValueOfDigits(c: nat, s: nat, n: nat)
    requires s > 0 && c < MyPow(s, n)
    ensures Value(Digits(c, s, n), s) == c
    decreases n
  {
    if n > 0 {
      var r := ValueOfNext(c, s, n - 1);
      ValueOfDigits(r, s, n - 1);
    }
  }

  lemma QuotientUnique(b: nat, q: nat, r: nat, q': nat, r': nat)
    requires q * b + r == q' * b + r' && r < b && r' < b
    ensures q == q' && r == r'
  {
    DivModUnique(q * b + r, b, q, r);
    DivModUnique(q * b + r, b, q', r');
  }

  /** Every digit vector is the digits of its value. */
  lemma {:induction false} DigitsOfValue(v: seq<nat>, s: nat)
    requires s > 0 && forall d | 0 <= d < |v| :: v[d] < s
    ensures Value(v, s) < MyPow(s, |v|) && Digits(Value(v, s), s, |v|) == v
  {
    if v != [] {
      var n := |v| - 1;
      var b := MyPow(s, n);
      DigitsOfValue(v[..n], s);
      PowNext(s, n);
      MulMono(v[n] + 1, s, b);
      MulNext(v[n], b);
      var q, r := DigitsNext(Value(v, s), s, n);
      QuotientUnique(b, q, r, v[n], Value(v[..n], s));
      assert v == v[..n] + [v[n]];
    }
  }
}
