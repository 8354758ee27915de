/** The generator matrix [identity; Cauchy] of the erasure code, and why any k of its rows can be inverted. */
module Generator {
  import opened Bytes
  import opened Field
  import opened Linear
  import opened Cauchy

  datatype Option<+T> = None | Some(value: T)

  /** ISA-L as the codec sees it: byte arithmetic with XOR as addition, and a matrix inverter. */
  datatype Isal = Isal(gf: Gf<byte>, invert: Matrix<byte> -> Option<Matrix<byte>>)

  ghost predicate AddIsXor(F: Gf<byte>, a: byte, b: byte) {
    F.add(a, b) == a ^ b
  }

  ghost predicate InvertsMatrix(L: Isal, B: Matrix<byte>, N: Matrix<byte>, k: nat) {
    IsLeftInverse(L.gf, N, B, k) ==> L.invert(B).Some? && IsLeftInverse(L.gf, L.invert(B).value, B, k)
  }

  /** What the codec relies on: the bytes form a field, and the inverter finds an inverse when there is one. */
  ghost predicate IsIsal(L: Isal) {
    && IsField(L.gf) && L.gf.zero == 0 && L.gf.one == 1
    && (forall a, b :: AddIsXor(L.gf, a, b))
    && (forall B, N, k :: InvertsMatrix(L, B, N, k))
  }

  /** Fragment id i as a field element. */
  function IdByte(i: nat): byte
    requires i < 256
  {
    ByteOf(i)
  }

  lemma IdByteInjective(i: nat, j: nat)
    requires i < 256 && j < 256 && i != j
    ensures IdByte(i) != IdByte(j)
  {
    ValueOfByteOf(i);
    ValueOfByteOf(j);
  }

  /** Row i of gf_gen_cauchy1_matrix: a unit row for a source fragment, 1 / (i ^ j) for a parity fragment. */
  function GenRow(F: Gf<byte>, k: nat, i: nat): (v: Vec<byte>)
    requires i < 256 && k <= 256
    ensures |v| == k
  {
    if i < k then Unit(F, k, i) else seq(k, j requires 0 <= j < k => F.inv(IdByte(i) ^ IdByte(j)))
  }

  /** Entry j of a parity row i is the inverse of the byte with value i XOR the byte with value j; entry j of a source
      row i is 1 at i and 0 elsewhere. */
  lemma GenRowEntries(L: Isal, k: nat, i: nat, j: nat) returns (x: byte, y: byte)
    requires IsIsal(L) && i < 256 && j < k <= 256
    ensures ValueOf(x) == i && ValueOf(y) == j
    ensures var row := GenRow(L.gf, k, i);
            if i < k then row[j] == if i == j then 1 else 0
            else x ^ y != 0 && L.gf.mul(x ^ y, row[j]) == 1
  {
    x, y := IdByte(i), IdByte(j);
    ValueOfByteOf(i);
    ValueOfByteOf(j);
    if i < k {
      SourceEntry(L.gf, k, i, j);
    } else {
      ParityEntry(L.gf, k, i, j);
      XorInverse(L, x, y);
    }
  }

  lemma SourceEntry(F: Gf<byte>, k: nat, i: nat, j: nat)
    requires i < k <= 256 && j < k
    ensures GenRow(F, k, i)[j] == if i == j then F.one else F.zero
  {
  }

  lemma ParityEntry(F: Gf<byte>, k: nat, i: nat, j: nat)
    requires j < k <= i < 256
    ensures GenRow(F, k, i)[j] == F.inv(IdByte(i) ^ IdByte(j))
  {
  }

  lemma XorInverse(L: Isal, x: byte, y: byte)
    requires IsIsal(L) && x != y
    ensures x ^ y != 0 && L.gf.mul(x ^ y, L.gf.inv(x ^ y)) == 1
  {
    XorZero(x, y);
    assert Inverts(L.gf, x ^ y);
  }

  lemma XorZero(x: byte, y: byte)
    requires x != y
    ensures x ^ y != 0
  {
  }

  function GenRows(F: Gf<byte>, k: nat, ids: seq<nat>): (M: Matrix<byte>)
    requires k <= 256 && forall i | 0 <= i < |ids| :: ids[i] < 256
    ensures Rect(M, |ids|, k)
  {
    seq(|ids|, r requires 0 <= r < |ids| => GenRow(F, k, ids[r]))
  }

  ghost predicate Ascending(ids: seq<nat>) {
    |ids| <= 1 || (ids[|ids| - 2] < ids[|ids| - 1] && Ascending(ids[..|ids| - 1]))
  }

  lemma {:induction false} AscendingIndex(ids: seq<nat>)
    ensures Ascending(ids) <==> forall i, j | 0 <= i < j < |ids| :: ids[i] < ids[j]
  {
    if |ids| > 1 {
      var n := |ids| - 1;
      AscendingIndex(ids[..n]);
      assert forall i, j | 0 <= i < j < n :: ids[i] == ids[..n][i] && ids[j] == ids[..n][j];
      assert Ascending(ids) ==> forall i | 0 <= i < n :: ids[i] <= ids[n - 1] by {
        assert forall i | 0 <= i < n :: ids[i] == ids[..n][i];
      }
    }
  }

  /** The elements of an ascending list, apart from the last, lie below the last. */
  lemma {:induction false} AscendingBelow(ids: seq<nat>)
    requires Ascending(ids) && ids != []
    ensures Ascending(ids[..|ids| - 1]) && Below(ids[..|ids| - 1], ids[|ids| - 1])
  {
    AscendingIndex(ids);
    AscendingIndex(ids[..|ids| - 1]);
  }

  lemma AscendingSlice(ids: seq<nat>, a: nat)
    requires Ascending(ids) && a <= |ids|
    ensures Ascending(ids[..a]) && Ascending(ids[a..])
  {
    AscendingIndex(ids);
    AscendingIndex(ids[..a]);
    AscendingIndex(ids[a..]);
  }

  ghost predicate Below(ids: seq<nat>, n: nat) {
    forall i | 0 <= i < |ids| :: ids[i] < n
  }

  ghost predicate NotBelow(ids: seq<nat>, n: nat) {
    forall i | 0 <= i < |ids| :: ids[i] >= n
  }

  /** The numbers below n that are missing from an ascending list. */
  ghost function Complement(n: nat, ids: seq<nat>): seq<nat> {
    if n == 0 then []
    else if ids != [] && ids[|ids| - 1] == n - 1 then Complement(n - 1, ids[..|ids| - 1])
    else Complement(n - 1, ids) + [n - 1]
  }

  lemma {:induction false} ComplementAscends(n: nat, ids: seq<nat>)
    ensures Ascending(Complement(n, ids)) && Below(Complement(n, ids), n)
  {
    if n > 0 {
      if ids != [] && ids[|ids| - 1] == n - 1 {
        ComplementAscends(n - 1, ids[..|ids| - 1]);
      } else {
        ComplementAscends(n - 1, ids);
        var r := Complement(n - 1, ids);
        assert (r + [n - 1])[..|r|] == r;
      }
    }
  }

  lemma {:induction false} ComplementCount(n: nat, ids: seq<nat>)
    requires Ascending(ids) && Below(ids, n)
    ensures |Complement(n, ids)| + |ids| == n
  {
    if n > 0 {
      if ids != [] { AscendingBelow(ids); }
      ComplementCount(n - 1, if ids != [] && ids[|ids| - 1] == n - 1 then ids[..|ids| - 1] else ids);
    }
  }

  lemma {:induction false} ComplementIn(n: nat, ids: seq<nat>, j: nat)
    requires Ascending(ids) && Below(ids, n) && j < n
    ensures j in Complement(n, ids) <==> j !in ids
  {
    if ids != [] { AscendingBelow(ids); }
    if ids != [] && ids[|ids| - 1] == n - 1 {
      assert ids == ids[..|ids| - 1] + [n - 1];
      if j < n - 1 { ComplementIn(n - 1, ids[..|ids| - 1], j); } else { ComplementAscends(n - 1, ids[..|ids| - 1]); }
    } else if j < n - 1 {
      ComplementIn(n - 1, ids, j);
    }
  }

  /** How many ids of an ascending list are source fragments. */
  ghost function Sources(ids: seq<nat>, k: nat): (a: nat)
    requires Ascending(ids)
    ensures a <= |ids| && Below(ids[..a], k) && NotBelow(ids[a..], k)
  {
    if ids == [] then 0
    else if ids[|ids| - 1] < k then
      AscendingIndex(ids);
      |ids|
    else
      assert forall i | 0 <= i < |ids| - 1 :: ids[..|ids| - 1][i] == ids[i];
      Sources(ids[..|ids| - 1], k)
  }

  ghost function IdBytes(ids: seq<nat>): (v: Vec<byte>)
    requires Below(ids, 256)
    ensures |v| == |ids|
  {
    seq(|ids|, i requires 0 <= i < |ids| => IdByte(ids[i]))
  }

  lemma PointsAreCauchy(ps: seq<nat>, ys: seq<nat>)
    requires |ps| == |ys| && Below(ps, 256) && Below(ys, 256) && Ascending(ps) && Ascending(ys)
    requires forall i, j | 0 <= i < |ps| && 0 <= j < |ys| :: ps[i] != ys[j]
    ensures CauchyPoints(IdBytes(ps), IdBytes(ys))
  {
    AscendingIndex(ps);
    AscendingIndex(ys);
    forall i, j | 0 <= i < j < |ps| ensures IdByte(ps[i]) != IdByte(ps[j]) { IdByteInjective(ps[i], ps[j]); }
    forall i, j | 0 <= i < j < |ys| ensures IdByte(ys[i]) != IdByte(ys[j]) { IdByteInjective(ys[i], ys[j]); }
    forall i, j | 0 <= i < |ps| && 0 <= j < |ys|
      ensures IdByte(ps[i]) != IdByte(ys[j])
    {
      IdByteInjective(ps[i], ys[j]);
    }
  }

  /** The parity rows are Cauchy rows. */
  lemma ParityColumn(L: Isal, k: nat, ps: seq<nat>, j: nat)
    requires IsIsal(L) && k <= 256 && Below(ps, 256) && j < k && NotBelow(ps, k)
    ensures Column(GenRows(L.gf, k, ps), j) == CauchyColumn(L.gf, IdBytes(ps), IdByte(j))
  {
    forall i | 0 <= i < |ps| ensures L.gf.inv(IdByte(ps[i]) ^ IdByte(j))
      == L.gf.inv(L.gf.add(IdByte(ps[i]), IdByte(j))) {
      assert AddIsXor(L.gf, IdByte(ps[i]), IdByte(j));
    }
  }

  /** The coefficients of the source rows, once those of the parity rows are fixed. */
  ghost function SourcePart(L: Isal, k: nat, ss: seq<nat>, ps: seq<nat>, q: Vec<byte>, t: Vec<byte>): (n: Vec<byte>)
    requires k <= 256 && Below(ss, k) && Below(ps, 256) && |q| == |ps| && |t| == k
    ensures |n| == |ss|
  {
    seq(|ss|, r requires 0 <= r < |ss| => L.gf.add(t[ss[r]], Dot(L.gf, q, Column(GenRows(L.gf, k, ps), ss[r]))))
  }

  /** A source row contributes to its own column only. */
  lemma SourceColumn(F: Gf<byte>, k: nat, ss: seq<nat>, n: Vec<byte>, j: nat)
    requires IsField(F) && k <= 256 && Below(ss, k) && Ascending(ss) && |n| == |ss| && j < k
    ensures j !in ss ==> Dot(F, n, Column(GenRows(F, k, ss), j)) == F.zero
    ensures forall r | 0 <= r < |ss| && ss[r] == j :: Dot(F, n, Column(GenRows(F, k, ss), j)) == n[r]
  {
    AscendingIndex(ss);
    var u := Column(GenRows(F, k, ss), j);
    assert forall i | 0 <= i < |ss| :: u[i] == if ss[i] == j then F.one else F.zero;
    if j !in ss {
      DotZero(F, n, u);
    }
    forall r | 0 <= r < |ss| && ss[r] == j ensures Dot(F, n, u) == n[r] {
      DotOne(F, n, u, r);
      MulOne(F, n[r]);
    }
  }

  lemma ColumnsAppend(F: Gf<byte>, k: nat, ss: seq<nat>, ps: seq<nat>, j: nat)
    requires k <= 256 && Below(ss, 256) && Below(ps, 256) && j < k
    ensures Column(GenRows(F, k, ss + ps), j) == Column(GenRows(F, k, ss), j) + Column(GenRows(F, k, ps), j)
  {
  }

  /** A column of source rows and parity rows, combined, is the sum of the two parts. */
  lemma TwoParts(F: Gf<byte>, k: nat, ss: seq<nat>, ps: seq<nat>, n: Vec<byte>, q: Vec<byte>, j: nat)
    requires IsField(F) && k <= 256 && Below(ss, 256) && Below(ps, 256) && |n| == |ss| && |q| == |ps| && j < k
    ensures Dot(F, n + q, Column(GenRows(F, k, ss + ps), j))
            == F.add(Dot(F, n, Column(GenRows(F, k, ss), j)), Dot(F, q, Column(GenRows(F, k, ps), j)))
  {
    ColumnsAppend(F, k, ss, ps, j);
    DotAppend(F, n, Column(GenRows(F, k, ss), j), q, Column(GenRows(F, k, ps), j));
  }

  /** Column j of surviving source rows, then parity rows, combined. */
  lemma CombinedColumn(L: Isal, k: nat, ss: seq<nat>, ps: seq<nat>, q: Vec<byte>, t: Vec<byte>, j: nat)
    requires IsField(L.gf) && k <= 256 && Below(ss, k) && Below(ps, 256) && Ascending(ss) && |q| == |ps| && |t| == k
             && j < k
    requires j !in ss ==> Dot(L.gf, q, Column(GenRows(L.gf, k, ps), j)) == t[j]
    ensures Dot(L.gf, SourcePart(L, k, ss, ps, q, t) + q, Column(GenRows(L.gf, k, ss + ps), j)) == t[j]
  {
    var F := L.gf;
    var n, d := SourcePart(L, k, ss, ps, q, t), Dot(F, q, Column(GenRows(F, k, ps), j));
    TwoParts(F, k, ss, ps, n, q, j);
    SourceColumn(F, k, ss, n, j);
    if j in ss {
      var r :| 0 <= r < |ss| && ss[r] == j;
      AddCancel(F, t[j], d);
    } else {
      AddZero(F, t[j]);
    }
  }

  /** The parity rows, combined by q, match t in the columns ys. */
  ghost predicate Matches(L: Isal, k: nat, ps: seq<nat>, ys: seq<nat>, q: Vec<byte>, t: Vec<byte>)
    requires k <= 256 && Below(ps, 256) && Below(ys, k) && |q| == |ps| && |t| == k
  {
    forall y | 0 <= y < |ys| :: Dot(L.gf, q, Column(GenRows(L.gf, k, ps), ys[y])) == t[ys[y]]
  }

  /** The parity rows can be combined to match t in the columns ys. */
  lemma ParitySolve(L: Isal, k: nat, ps: seq<nat>, ys: seq<nat>, t: Vec<byte>) returns (q: Vec<byte>)
    requires IsIsal(L) && k <= 256 && |t| == k && |ps| == |ys| && Ascending(ps) && Ascending(ys)
    requires Below(ps, 256) && NotBelow(ps, k) && Below(ys, k)
    ensures |q| == |ps| && Matches(L, k, ps, ys, q, t)
  {
    PointsAreCauchy(ps, ys);
    q := CauchySolve(L.gf, IdBytes(ps), IdBytes(ys), seq(|ys|, j requires 0 <= j < |ys| => t[ys[j]]));
    forall y | 0 <= y < |ys| ensures Dot(L.gf, q, Column(GenRows(L.gf, k, ps), ys[y])) == t[ys[y]] {
      ParityColumn(L, k, ps, ys[y]);
      assert IdBytes(ys)[y] == IdByte(ys[y]);
    }
  }

  /** What matches t in the columns that no source row covers matches it in all columns. */
  lemma MatchedColumns(L: Isal, k: nat, ss: seq<nat>, ps: seq<nat>, ys: seq<nat>, q: Vec<byte>, t: Vec<byte>)
    requires IsField(L.gf) && k <= 256 && Below(ss, k) && Below(ps, 256) && Ascending(ss) && |q| == |ps| && |t| == k
    requires ys == Complement(k, ss) && Below(ys, k) && Matches(L, k, ps, ys, q, t)
    ensures forall j: nat | j < k ::
              Dot(L.gf, SourcePart(L, k, ss, ps, q, t) + q, Column(GenRows(L.gf, k, ss + ps), j)) == t[j]
  {
    forall j: nat | j < k ensures Dot(L.gf, SourcePart(L, k, ss, ps, q, t) + q, Column(GenRows(L.gf, k, ss + ps), j))
      == t[j] {
      ComplementIn(k, ss, j);
      CombinedColumn(L, k, ss, ps, q, t, j);
    }
  }

  /** Ascending fragment ids: those of source fragments come first. */
  lemma SplitIds(ids: seq<nat>, k: nat) returns (a: nat)
    requires Ascending(ids) && Below(ids, 256)
    ensures a <= |ids| && Ascending(ids[..a]) && Ascending(ids[a..])
    ensures Below(ids[..a], k) && Below(ids[a..], 256) && NotBelow(ids[a..], k)
  {
    a := Sources(ids, k);
    AscendingSlice(ids, a);
  }

  /** k rows of the generator, those of source fragments first, span all vectors of length k. */
  lemma PartsSpan(L: Isal, k: nat, ss: seq<nat>, ps: seq<nat>, t: Vec<byte>) returns (n: Vec<byte>)
    requires IsIsal(L) && Ascending(ss) && Ascending(ps) && Below(ss, k) && Below(ps, 256) && NotBelow(ps, k)
    requires |ss| + |ps| == k == |t| && k <= 256
    ensures |n| == k && Comb(L.gf, n, GenRows(L.gf, k, ss + ps), k) == t
  {
    ComplementAscends(k, ss);
    ComplementCount(k, ss);
    var ys := Complement(k, ss);
    var q := ParitySolve(L, k, ps, ys, t);
    n := SourcePart(L, k, ss, ps, q, t) + q;
    MatchedColumns(L, k, ss, ps, ys, q, t);
  }

  /** Any k rows of the generator span all vectors of length k. */
  lemma RowsSpan(L: Isal, k: nat, ids: seq<nat>, t: Vec<byte>) returns (n: Vec<byte>)
    requires IsIsal(L) && Ascending(ids) && Below(ids, 256) && |ids| == k == |t| && k <= 256
    ensures |n| == k && Comb(L.gf, n, GenRows(L.gf, k, ids), k) == t
  {
    var a := SplitIds(ids, k);
    assert ids == ids[..a] + ids[a..];
    n := PartsSpan(L, k, ids[..a], ids[a..], t);
  }

  /** So the inverter succeeds on any k distinct rows, and returns a left inverse. */
  lemma AnyRowsInvert(L: Isal, k: nat, ids: seq<nat>)
    requires IsIsal(L) && Ascending(ids) && Below(ids, 256) && |ids| == k <= 256
    ensures var B := GenRows(L.gf, k, ids);
            L.invert(B).Some? && IsLeftInverse(L.gf, L.invert(B).value, B, k)
  {
    var B := GenRows(L.gf, k, ids);
    var N := RowsSpanAll(L, k, ids, k);
    assert IsLeftInverse(L.gf, N, B, k);
    assert InvertsMatrix(L, B, N, k);
  }

  lemma {:induction false} RowsSpanAll(L: Isal, k: nat, ids: seq<nat>, i: nat) returns (N: Matrix<byte>)
    requires IsIsal(L) && Ascending(ids) && Below(ids, 256) && |ids| == k <= 256 && i <= k
    ensures Rect(N, i, k) && forall r | 0 <= r < i :: Comb(L.gf, N[r], GenRows(L.gf, k, ids), k) == Unit(L.gf, k, r)
  {
    if i == 0 {
      N := [];
    } else {
      var N' := RowsSpanAll(L, k, ids, i - 1);
      var n := RowsSpan(L, k, ids, Unit(L.gf, k, i - 1));
      N := N' + [n];
    }
  }
}
