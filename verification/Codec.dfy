/** Encoding a key into k source and p parity fragments, and rebuilding it from any k of them. */
module Codec {
  import opened Bytes
  import opened Field
  import opened Linear
  import opened Generator
  import opened Finite

  // ----- a key as k rows of len bytes

  lemma TimesGrows(a: nat, d: nat, len: nat)
    ensures a * len <= (a + d) * len
  {
  }

  lemma RowFits(k: nat, len: nat, i: nat)
    requires i < k
    ensures i * len + len <= k * len
  {
    TimesGrows(i + 1, k - i - 1, len);
    assert (i + 1) * len == i * len + len;
  }

  function Split(key: Key, k: nat, len: nat): (M: Matrix<byte>)
    requires |key| == k * len
    ensures Rect(M, k, len)
  {
    seq(k, i requires 0 <= i < k => Slice(key, k, len, i))
  }

  function Slice(key: Key, k: nat, len: nat, i: nat): (row: Vec<byte>)
    requires |key| == k * len && i < k
    ensures |row| == len
  {
    RowFits(k, len, i);
    key[i * len..i * len + len]
  }

  function Join(M: Matrix<byte>): Key {
    if M == [] then [] else Join(M[..|M| - 1]) + M[|M| - 1]
  }

  lemma {:induction false} JoinPrefix(key: Key, k: nat, len: nat, i: nat)
    requires |key| == k * len && i <= k
    ensures i * len <= |key| && Join(Split(key, k, len)[..i]) == key[..i * len]
  {
    if i > 0 {
      var a := (i - 1) * len;
      RowFits(k, len, i - 1);
      assert a + len == i * len;
      JoinPrefix(key, k, len, i - 1);
      assert Split(key, k, len)[..i][..i - 1] == Split(key, k, len)[..i - 1];
      assert key[..a] + key[a..a + len] == key[..a + len];
    }
  }

  lemma JoinSplit(key: Key, k: nat, len: nat)
    requires |key| == k * len
    ensures Join(Split(key, k, len)) == key
  {
    JoinPrefix(key, k, len, k);
    assert Split(key, k, len)[..k] == Split(key, k, len) && key[..k * len] == key;
  }

  lemma {:induction false} JoinLength(M: Matrix<byte>, k: nat, len: nat)
    requires Rect(M, k, len)
    ensures |Join(M)| == k * len
  {
    if k > 0 {
      JoinLength(M[..k - 1], k - 1, len);
      assert (k - 1) * len + len == k * len;
    }
  }

  // ----- fragments

  /** ec_encode_data: byte c of output r is row r of the coefficients times byte c of the sources. */
  function EcEncodeData(F: Gf<byte>, len: nat, coeffs: Matrix<byte>, srcs: Matrix<byte>): (out: Matrix<byte>)
    requires Rect(srcs, |srcs|, len) && Rect(coeffs, |coeffs|, |srcs|)
    ensures Rect(out, |coeffs|, len)
  {
    seq(|coeffs|, r requires 0 <= r < |coeffs| => RowTimes(F, len, coeffs[r], srcs))
  }

  function RowTimes(F: Gf<byte>, len: nat, row: Vec<byte>, srcs: Matrix<byte>): (out: Vec<byte>)
    requires Rect(srcs, |row|, len)
    ensures |out| == len
  {
    seq(len, c requires 0 <= c < len => Dot(F, row, Column(srcs, c)))
  }

  /** Fragment `id` of `key`: row `id` of the generator times the key. */
  function FragmentOf(F: Gf<byte>, key: Key, k: nat, len: nat, id: nat): (seg: Key)
    requires |key| == k * len && id < 256 && k <= 256
    ensures |seg| == len
  {
    RowTimes(F, len, GenRow(F, k, id), Split(key, k, len))
  }

  /** The first k fragments are the key itself. */
  lemma SourceFragment(F: Gf<byte>, key: Key, k: nat, len: nat, id: nat)
    requires IsField(F) && |key| == k * len && id < k <= 256
    ensures FragmentOf(F, key, k, len, id) == Split(key, k, len)[id]
  {
    forall c | 0 <= c < len ensures FragmentOf(F, key, k, len, id)[c] == Split(key, k, len)[id][c] {
      DotUnit(F, k, id, Column(Split(key, k, len), c));
    }
  }

  /** Byte c of a fragment: for a source fragment, byte id * len + c of the key; for a parity fragment, the generator
      row times every len-th byte of the key from c on. */
  lemma FragmentByte(F: Gf<byte>, key: Key, k: nat, len: nat, id: nat, c: nat) returns (col: Vec<byte>)
    requires IsField(F) && |key| == k * len && id < 256 && k <= 256 && c < len
    ensures |col| == k && forall j: nat | j < k :: ByteAt(key, len, j, c, col[j])
    ensures if id < k then ByteAt(key, len, id, c, FragmentOf(F, key, k, len, id)[c])
            else FragmentOf(F, key, k, len, id)[c] == Dot(F, GenRow(F, k, id), col)
  {
    col := Column(Split(key, k, len), c);
    forall j: nat | j < k ensures ByteAt(key, len, j, c, col[j]) {
      RowFits(k, len, j);
    }
    if id < k { DotUnit(F, k, id, col); }
  }

  /** `b` is byte c of the j-th stretch of len bytes of `key`. */
  ghost predicate ByteAt(key: Key, len: nat, j: nat, c: nat, b: byte) {
    j * len + c < |key| && key[j * len + c] == b
  }

  function UpTo(m: nat): (ids: seq<nat>)
    ensures |ids| == m && forall i | 0 <= i < m :: ids[i] == i
  {
    seq(m, i requires 0 <= i => i)
  }

  /** The k source fragments, copied byte by byte. */
  method FillSources(key: Key, k: nat, len: nat) returns (frags: Matrix<byte>)
    requires |key| >= k * len
    ensures frags == Split(key[..k * len], k, len)
  {
    frags := [];
    for i := 0 to k
      invariant |frags| == i && forall r | 0 <= r < i :: frags[r] == Split(key[..k * len], k, len)[r]
    {
      RowFits(k, len, i);
      var buffer := new byte[len];
      for j := 0 to len
        invariant forall c | 0 <= c < j :: buffer[c] == key[i * len + c]
      {
        buffer[j] := key[i * len + j];
      }
      frags := frags + [buffer[..]];
    }
  }

  /** Source fragments, then parity fragments: number id of them is row id of the generator times the key. */
  lemma SourceOrParity(L: Isal, key: Key, k: nat, len: nat, m: nat, id: nat)
    requires IsIsal(L) && |key| == k * len && id < m <= 255 && k <= m
    ensures var sources := Split(key, k, len);
            (sources + EcEncodeData(L.gf, len, GenRows(L.gf, k, UpTo(m))[k..], sources))[id]
              == FragmentOf(L.gf, key, k, len, id)
  {
    if id < k { SourceFragment(L.gf, key, k, len, id); }
  }

  /** The segment that switch `id` stores for `key`. */
  method Encode(L: Isal, id: nat, key: Key, k: nat, p: nat, len: nat) returns (seg: Key)
    requires IsIsal(L) && id < k + p <= 255 && |key| >= k * len
    ensures seg == FragmentOf(L.gf, key[..k * len], k, len, id)
  {
    var sources := FillSources(key, k, len);
    var encodeMatrix := GenRows(L.gf, k, UpTo(k + p));
    var fragPtrs := sources + EcEncodeData(L.gf, len, encodeMatrix[k..], sources);
    SourceOrParity(L, key[..k * len], k, len, k + p, id);
    seg := fragPtrs[id];
  }

  // ----- which fragments survive

  /** The ids below m that are not in the erasure list, ascending. */
  function Survivors(m: nat, errs: seq<nat>): seq<nat> {
    if m == 0 then [] else if m - 1 in errs then Survivors(m - 1, errs) else Survivors(m - 1, errs) + [m - 1]
  }

  lemma {:induction false} SurvivorsAscend(m: nat, errs: seq<nat>)
    ensures Ascending(Survivors(m, errs)) && Below(Survivors(m, errs), m)
  {
    if m > 0 {
      SurvivorsAscend(m - 1, errs);
      var r := Survivors(m - 1, errs);
      assert (r + [m - 1])[..|r|] == r;
    }
  }

  /** The first k of them. */
  function FirstSurvivors(m: nat, errs: seq<nat>, k: nat): (ids: seq<nat>)
    requires |Survivors(m, errs)| >= k
    ensures |ids| == k && Below(ids, m)
  {
    SurvivorsAscend(m, errs);
    Survivors(m, errs)[..k]
  }

  lemma {:induction false} SurvivorsPrefix(m: nat, m': nat, errs: seq<nat>)
    requires m <= m'
    ensures Survivors(m, errs) <= Survivors(m', errs)
  {
    if m < m' { SurvivorsPrefix(m, m' - 1, errs); }
  }

  lemma {:induction false} SurvivorsIn(m: nat, errs: seq<nat>, j: nat)
    ensures j in Survivors(m, errs) <==> j < m && j !in errs
  {
    if m > 0 { SurvivorsIn(m - 1, errs, j); }
  }

  lemma LastIsLargest(errs: seq<nat>, m: nat)
    requires Ascending(errs) && Below(errs, m)
    ensures m > 0 && (errs == [] || errs[|errs| - 1] != m - 1) ==> m - 1 !in errs && Below(errs, m - 1)
    ensures m > 0 && errs != [] ==> Below(errs[..|errs| - 1], m - 1) && Ascending(errs[..|errs| - 1])
  {
    AscendingIndex(errs);
  }

  /** Erasing n distinct ids leaves m - n. */
  lemma {:induction false} SurvivorsCount(m: nat, errs: seq<nat>)
    requires Ascending(errs) && Below(errs, m)
    ensures |Survivors(m, errs)| + |errs| == m
  {
    if m > 0 {
      LastIsLargest(errs, m);
      var n := |errs| - 1;
      if errs != [] && errs[n] == m - 1 {
        assert forall j | 0 <= j < m - 1 :: j in errs <==> j in errs[..n] by { assert errs == errs[..n] + [m - 1]; }
        SurvivorsSame(m - 1, errs[..n], errs);
        SurvivorsCount(m - 1, errs[..n]);
      } else {
        SurvivorsCount(m - 1, errs);
      }
    }
  }

  lemma {:induction false} SurvivorsSame(m: nat, errs: seq<nat>, errs': seq<nat>)
    requires forall j | 0 <= j < m :: j in errs <==> j in errs'
    ensures Survivors(m, errs) == Survivors(m, errs')
  {
    if m > 0 { SurvivorsSame(m - 1, errs, errs'); }
  }

  // ----- recovery

  /** Applied to the fragments `ids` of any data, the row gives its fragment `err`, source or parity. */
  ghost predicate Regenerates(F: Gf<byte>, k: nat, ids: seq<nat>, row: Vec<byte>, err: nat)
    requires k <= 256 && Below(ids, 256) && |ids| == k && err < 256 && |row| == k
  {
    forall x: Vec<byte> {:trigger Apply(F, GenRows(F, k, ids), x)} | |x| == k ::
      Dot(F, row, Apply(F, GenRows(F, k, ids), x)) == Dot(F, GenRow(F, k, err), x)
  }

  /** The row for erasure `err`, given the inverse N of the generator rows that remain. */
  function RecoveryRow(F: Gf<byte>, k: nat, N: Matrix<byte>, err: nat): (row: Vec<byte>)
    requires Rect(N, k, k) && k <= 256 && err < 256
    ensures |row| == k
  {
    if err < k then N[err] else Comb(F, GenRow(F, k, err), N, k)
  }

  lemma RecoveryRowRegenerates(L: Isal, k: nat, ids: seq<nat>, N: Matrix<byte>, err: nat)
    requires IsIsal(L) && err < 256 && k <= 256 && Below(ids, 256) && |ids| == k
    requires IsLeftInverse(L.gf, N, GenRows(L.gf, k, ids), k)
    ensures Regenerates(L.gf, k, ids, RecoveryRow(L.gf, k, N, err), err)
  {
    var B, e := GenRows(L.gf, k, ids), GenRow(L.gf, k, err);
    forall x: Vec<byte> | |x| == k
      ensures Dot(L.gf, RecoveryRow(L.gf, k, N, err), Apply(L.gf, B, x)) == Dot(L.gf, e, x)
    {
      if err < k {
        CombDot(L.gf, N[err], B, x);
      } else {
        CombDot(L.gf, e, N, Apply(L.gf, B, x));
        InverseUndoes(L.gf, N, B, x);
      }
    }
  }

  /** One entry of a row times a matrix. */
  method RowEntry(L: Isal, N: Matrix<byte>, encRow: Vec<byte>, k: nat, i: nat) returns (s: byte)
    requires IsIsal(L) && Rect(N, k, k) && |encRow| == k && i < k
    ensures s == Dot(L.gf, encRow, Column(N, i))
  {
    s := 0;
    for j := 0 to k
      invariant s == Dot(L.gf, encRow[..j], Column(N, i)[..j])
    {
      assert MulCommutes(L.gf, N[j][i], encRow[j]) && AddIsXor(L.gf, s, L.gf.mul(N[j][i], encRow[j]));
      assert encRow[..j + 1][..j] == encRow[..j] && Column(N, i)[..j + 1][..j] == Column(N, i)[..j];
      s := s ^ L.gf.mul(N[j][i], encRow[j]);
    }
    assert encRow[..k] == encRow && Column(N, i)[..k] == Column(N, i);
  }

  /** A row for a parity erasure: the generator row of the erasure times the inverse. */
  method ParityRow(L: Isal, N: Matrix<byte>, err: nat, k: nat) returns (row: Vec<byte>)
    requires IsIsal(L) && err < 256 && k <= 256 && Rect(N, k, k)
    ensures row == Comb(L.gf, GenRow(L.gf, k, err), N, k)
  {
    var encRow := GenRow(L.gf, k, err);
    row := [];
    for i := 0 to k
      invariant |row| == i && forall c | 0 <= c < i :: row[c] == Dot(L.gf, encRow, Column(N, c))
    {
      var s := RowEntry(L, N, encRow, k, i);
      row := row + [s];
    }
  }

  /** The rows for all erasures: first those of source fragments, then those of parity fragments. */
  method RecoveryRows(L: Isal, errs: seq<nat>, N: Matrix<byte>, k: nat) returns (rows: Matrix<byte>)
    requires IsIsal(L) && k <= 256 && Below(errs, 256) && Rect(N, k, k)
    ensures |rows| == |errs| && forall e | 0 <= e < |errs| :: rows[e] == RecoveryRow(L.gf, k, N, errs[e])
  {
    rows := seq(|errs|, _ => []);
    for i := 0 to |errs|
      invariant |rows| == |errs|
      invariant forall e | 0 <= e < i && errs[e] < k :: rows[e] == RecoveryRow(L.gf, k, N, errs[e])
    {
      if errs[i] < k {
        rows := rows[i := N[errs[i]]];
      }
    }
    for i := 0 to |errs|
      invariant |rows| == |errs|
      invariant forall e | 0 <= e < |errs| && (e < i || errs[e] < k) :: rows[e] == RecoveryRow(L.gf, k, N, errs[e])
    {
      if errs[i] >= k {
        var row := ParityRow(L, N, errs[i], k);
        rows := rows[i := row];
      }
    }
  }

  /** One flag per fragment id: is it erased? */
  method MarkErased(fragErrList: seq<nat>) returns (fragInErr: array<bool>)
    requires Below(fragErrList, 255)
    ensures fresh(fragInErr) && fragInErr.Length == 255
    ensures forall e: nat | e < 255 :: fragInErr[e] <==> e in fragErrList
  {
    fragInErr := new bool[255](_ => false);
    for i := 0 to |fragErrList|
      invariant forall e | 0 <= e < 255 :: fragInErr[e] <==> e in fragErrList[..i]
    {
      fragInErr[fragErrList[i]] := true;
      assert fragErrList[..i + 1] == fragErrList[..i] + [fragErrList[i]];
    }
    assert fragErrList[..|fragErrList|] == fragErrList;
  }

  /** The generator rows of the first k surviving fragments, and their ids. */
  method RemainingRows(L: Isal, fragErrList: seq<nat>, k: nat, m: nat) returns (b: Matrix<byte>, decodeIndex: seq<nat>)
    requires k <= m <= 255 && Below(fragErrList, m) && |Survivors(m, fragErrList)| >= k
    ensures decodeIndex == FirstSurvivors(m, fragErrList, k)
    ensures b == GenRows(L.gf, k, decodeIndex)
  {
    var fragInErr := MarkErased(fragErrList);
    b, decodeIndex := [], [];
    var r := 0;
    for i := 0 to k
      invariant 0 <= r <= m && decodeIndex == Survivors(r, fragErrList) && |decodeIndex| == i && Below(decodeIndex, r)
      invariant b == GenRows(L.gf, k, decodeIndex)
      invariant forall e: nat | e < 255 :: fragInErr[e] <==> e in fragErrList
    {
      while fragInErr[r]
        invariant 0 <= r < m && decodeIndex == Survivors(r, fragErrList)
        invariant forall e: nat | e < 255 :: fragInErr[e] <==> e in fragErrList
        decreases m - r
      {
        assert r in fragErrList;
        r := r + 1;
        SurvivorsPrefix(r, m, fragErrList);
      }
      assert r !in fragErrList;
      b := b + [GenRow(L.gf, k, r)];
      decodeIndex := decodeIndex + [r];
      r := r + 1;
      SurvivorsPrefix(r, m, fragErrList);
    }
    SurvivorsPrefix(r, m, fragErrList);
  }

  lemma FirstSurvivorsFit(m: nat, errs: seq<nat>, k: nat)
    requires |Survivors(m, errs)| >= k && m <= 255
    ensures Ascending(FirstSurvivors(m, errs, k)) && Below(FirstSurvivors(m, errs, k), 256)
  {
    SurvivorsAscend(m, errs);
    AscendingSlice(Survivors(m, errs), k);
  }

  /** The inverse of the generator rows `ids`. */
  ghost function InverseOf(L: Isal, k: nat, ids: seq<nat>): (N: Matrix<byte>)
    requires IsIsal(L) && Ascending(ids) && Below(ids, 256) && |ids| == k <= 256
    ensures IsLeftInverse(L.gf, N, GenRows(L.gf, k, ids), k)
  {
    AnyRowsInvert(L, k, ids);
    L.invert(GenRows(L.gf, k, ids)).value
  }

  ghost function RecoveryMatrix(L: Isal, errs: seq<nat>, k: nat, ids: seq<nat>): (dec: Matrix<byte>)
    requires IsIsal(L) && Ascending(ids) && Below(ids, 256) && |ids| == k <= 256 && Below(errs, 256)
    ensures Rect(dec, |errs|, k)
  {
    seq(|errs|, i requires 0 <= i < |errs| => RecoveryRow(L.gf, k, InverseOf(L, k, ids), errs[i]))
  }

  lemma RecoveryMatrixRecovers(L: Isal, errs: seq<nat>, k: nat, ids: seq<nat>)
    requires IsIsal(L) && Ascending(ids) && Below(ids, 256) && |ids| == k <= 256 && Below(errs, 256)
    ensures RecoversAll(L.gf, k, ids, errs, RecoveryMatrix(L, errs, k, ids))
  {
    forall i | 0 <= i < |errs| ensures Regenerates(L.gf, k, ids, RecoveryMatrix(L, errs, k, ids)[i], errs[i]) {
      RecoveryRowRegenerates(L, k, ids, InverseOf(L, k, ids), errs[i]);
    }
  }

  /** The first k surviving fragments, and for each erased one a row that regenerates it from them. */
  method GenDecodeMatrix(L: Isal, fragErrList: seq<nat>, k: nat, m: nat)
    returns (ret: int, decodeMatrix: Matrix<byte>, decodeIndex: seq<nat>)
    requires IsIsal(L) && k <= m <= 255 && Below(fragErrList, m) && |Survivors(m, fragErrList)| >= k
    ensures ret == 0 && decodeIndex == FirstSurvivors(m, fragErrList, k)
    ensures Ascending(decodeIndex) && decodeMatrix == RecoveryMatrix(L, fragErrList, k, decodeIndex)
    ensures RecoversAll(L.gf, k, decodeIndex, fragErrList, decodeMatrix)
  {
    var b;
    b, decodeIndex := RemainingRows(L, fragErrList, k, m);
    FirstSurvivorsFit(m, fragErrList, k);
    AnyRowsInvert(L, k, decodeIndex);
    var inverse := L.invert(b);
    if inverse.None? { return -1, [], decodeIndex; }
    decodeMatrix := RecoveryRows(L, fragErrList, inverse.value, k);
    RecoveryMatrixRecovers(L, fragErrList, k, decodeIndex);
    ret := 0;
  }

  // ----- the round trip

  /** `srcs` are the fragments `ids` of `key`. */
  ghost predicate FragmentsOf(F: Gf<byte>, key: Key, k: nat, len: nat, ids: seq<nat>, srcs: Matrix<byte>)
    requires |key| == k * len && k <= 256 && Below(ids, 256)
  {
    |srcs| == |ids| && forall i | 0 <= i < |ids| :: srcs[i] == FragmentOf(F, key, k, len, ids[i])
  }

  /** Whatever key `srcs` are the fragments `ids` of, `key` is that key. */
  ghost predicate DecodesTo(F: Gf<byte>, k: nat, len: nat, ids: seq<nat>, srcs: Matrix<byte>, key: Key)
    requires k <= 256 && Below(ids, 256)
  {
    forall orig: Key | |orig| == k * len && FragmentsOf(F, orig, k, len, ids, srcs) :: key == orig
  }

  lemma FragmentColumn(F: Gf<byte>, key: Key, k: nat, len: nat, ids: seq<nat>, srcs: Matrix<byte>, c: nat)
    requires |key| == k * len && k <= 256 && Below(ids, 256) && c < len && FragmentsOf(F, key, k, len, ids, srcs)
    ensures Rect(srcs, |ids|, len) && Column(srcs, c) == Apply(F, GenRows(F, k, ids), Column(Split(key, k, len), c))
  {
    var x := Column(Split(key, k, len), c);
    forall i | 0 <= i < |ids| ensures srcs[i][c] == Dot(F, GenRow(F, k, ids[i]), x) {
      assert srcs[i] == RowTimes(F, len, GenRow(F, k, ids[i]), Split(key, k, len));
    }
  }

  /** A recovery row turns surviving fragments of a key into the erased one. */
  lemma RegeneratedFragment(F: Gf<byte>, key: Key, k: nat, len: nat, ids: seq<nat>, srcs: Matrix<byte>, row: Vec<byte>,
                            err: nat)
    requires |key| == k * len && k <= 256 && Below(ids, 256) && |ids| == k == |row| && err < 256
    requires FragmentsOf(F, key, k, len, ids, srcs) && Regenerates(F, k, ids, row, err)
    ensures RowTimes(F, len, row, srcs) == FragmentOf(F, key, k, len, err)
  {
    forall c | 0 <= c < len
      ensures Dot(F, row, Column(srcs, c)) == Dot(F, GenRow(F, k, err), Column(Split(key, k, len), c))
    {
      FragmentColumn(F, key, k, len, ids, srcs, c);
    }
  }

  /** Row j of the decoded key: the recovered fragment if j was erased, the received one otherwise. `e` and `j - e`
      count the erased and the received fragments below j. */
  predicate Picks(errs: seq<nat>, outp: Matrix<byte>, srcs: Matrix<byte>, j: nat, e: nat, row: Vec<byte>) {
    if e < |errs| && errs[e] == j then e < |outp| && row == outp[e]
    else e <= j && j - e < |srcs| && row == srcs[j - e]
  }

  ghost predicate PicksAll(errs: seq<nat>, outp: Matrix<byte>, srcs: Matrix<byte>, rows: Matrix<byte>) {
    forall j: nat | j < |rows| :: Picks(errs, outp, srcs, j, ErrsBelow(errs, j), rows[j])
  }

  lemma PicksNext(errs: seq<nat>, outp: Matrix<byte>, srcs: Matrix<byte>, rows: Matrix<byte>, row: Vec<byte>)
    requires PicksAll(errs, outp, srcs, rows) && Picks(errs, outp, srcs, |rows|, ErrsBelow(errs, |rows|), row)
    ensures PicksAll(errs, outp, srcs, rows + [row]) && Join(rows + [row]) == Join(rows) + row
  {
    assert (rows + [row])[..|rows|] == rows;
  }

  /** The number of erasures below j. */
  function ErrsBelow(errs: seq<nat>, j: nat): (e: nat)
    ensures e <= |errs|
  {
    if errs == [] then 0 else ErrsBelow(errs[..|errs| - 1], j) + if errs[|errs| - 1] < j then 1 else 0
  }

  lemma {:induction false} ErrsBelowSplits(errs: seq<nat>, j: nat)
    requires Ascending(errs)
    ensures var e := ErrsBelow(errs, j);
            (forall i | 0 <= i < e :: errs[i] < j) && (forall i | e <= i < |errs| :: errs[i] >= j)
  {
    if errs != [] {
      var n := |errs| - 1;
      AscendingBelow(errs);
      ErrsBelowSplits(errs[..n], j);
      assert forall i | 0 <= i < n :: errs[..n][i] == errs[i];
    }
  }

  lemma {:induction false} ErrsBelowIs(errs: seq<nat>, j: nat, e: nat)
    requires e <= |errs| && (forall i | 0 <= i < e :: errs[i] < j) && (forall i | e <= i < |errs| :: errs[i] >= j)
    ensures ErrsBelow(errs, j) == e
  {
    if errs != [] { ErrsBelowIs(errs[..|errs| - 1], j, if e == |errs| then e - 1 else e); }
  }

  /** Moving past j counts one more erasure exactly if j is erased. */
  lemma ErrsBelowNext(errs: seq<nat>, j: nat)
    requires Ascending(errs)
    ensures var e := ErrsBelow(errs, j);
            ErrsBelow(errs, j + 1) == (if e < |errs| && errs[e] == j then e + 1 else e)
            && (j in errs <==> e < |errs| && errs[e] == j)
  {
    var e := ErrsBelow(errs, j);
    ErrsBelowSplits(errs, j);
    AscendingIndex(errs);
    ErrsBelowIs(errs, j + 1, if e < |errs| && errs[e] == j then e + 1 else e);
  }

  lemma {:induction false} SurvivorsBelow(errs: seq<nat>, j: nat)
    requires Ascending(errs)
    ensures |Survivors(j, errs)| + ErrsBelow(errs, j) == j
  {
    if j == 0 {
      ErrsBelowIs(errs, 0, 0);
    } else {
      SurvivorsBelow(errs, j - 1);
      ErrsBelowNext(errs, j - 1);
    }
  }

  /** Survivor number j - e is j itself if e erasures lie below j, which is none of them. */
  lemma SurvivorAt(errs: seq<nat>, j: nat, m: nat)
    requires Ascending(errs) && j < m && j !in errs
    ensures var i := j - ErrsBelow(errs, j); 0 <= i < |Survivors(m, errs)| && Survivors(m, errs)[i] == j
  {
    SurvivorsBelow(errs, j);
    SurvivorsPrefix(j + 1, m, errs);
    assert Survivors(j + 1, errs)[|Survivors(j, errs)|] == j;
  }

  /** `dec` holds a recovery row for each erasure. */
  ghost predicate RecoversAll(F: Gf<byte>, k: nat, ids: seq<nat>, errs: seq<nat>, dec: Matrix<byte>)
    requires k <= 256 && Below(ids, 256) && |ids| == k && Below(errs, 256)
  {
    Rect(dec, |errs|, k) && forall i | 0 <= i < |errs| :: Regenerates(F, k, ids, dec[i], errs[i])
  }

  /** A recovered row is the row of the key. */
  lemma RecoveredRow(F: Gf<byte>, key: Key, k: nat, len: nat, ids: seq<nat>, errs: seq<nat>, dec: Matrix<byte>,
                     srcs: Matrix<byte>, e: nat)
    requires IsField(F) && k <= 256 && |key| == k * len && Below(ids, 256) && |ids| == k && Below(errs, 256)
    requires Rect(srcs, k, len) && FragmentsOf(F, key, k, len, ids, srcs) && RecoversAll(F, k, ids, errs, dec)
    requires e < |errs| && errs[e] < k
    ensures EcEncodeData(F, len, dec, srcs)[e] == Split(key, k, len)[errs[e]]
  {
    RegeneratedFragment(F, key, k, len, ids, srcs, dec[e], errs[e]);
    SourceFragment(F, key, k, len, errs[e]);
  }

  /** A received row is the row of the key. */
  lemma ReceivedRow(F: Gf<byte>, key: Key, k: nat, len: nat, errs: seq<nat>, m: nat, srcs: Matrix<byte>, j: nat)
    requires IsField(F) && k <= m <= 256 && |key| == k * len && |Survivors(m, errs)| >= k
    requires Ascending(errs) && FragmentsOf(F, key, k, len, FirstSurvivors(m, errs, k), srcs)
    requires j < k && j !in errs
    ensures var i := j - ErrsBelow(errs, j); 0 <= i < k && srcs[i] == Split(key, k, len)[j]
  {
    SurvivorAt(errs, j, m);
    SourceFragment(F, key, k, len, j);
    var i := j - ErrsBelow(errs, j);
    assert srcs[i] == FragmentOf(F, key, k, len, FirstSurvivors(m, errs, k)[i]);
  }

  /** A row the decoder picks is the row of the key. */
  lemma PickedRow(F: Gf<byte>, key: Key, k: nat, len: nat, errs: seq<nat>, m: nat, dec: Matrix<byte>,
                  srcs: Matrix<byte>,
                  outp: Matrix<byte>, j: nat, row: Vec<byte>)
    requires IsField(F) && k <= m <= 256 && |key| == k * len && |Survivors(m, errs)| >= k
    requires Ascending(errs) && Below(errs, 256) && Rect(srcs, k, len)
    requires FragmentsOf(F, key, k, len, FirstSurvivors(m, errs, k), srcs)
    requires RecoversAll(F, k, FirstSurvivors(m, errs, k), errs, dec)
    requires outp == EcEncodeData(F, len, dec, srcs) && j < k && Picks(errs, outp, srcs, j, ErrsBelow(errs, j), row)
    ensures row == Split(key, k, len)[j]
  {
    ErrsBelowNext(errs, j);
    var e := ErrsBelow(errs, j);
    if j in errs {
      assert row == outp[e];
      RecoveredRow(F, key, k, len, FirstSurvivors(m, errs, k), errs, dec, srcs, e);
    } else {
      assert row == srcs[j - e];
      ReceivedRow(F, key, k, len, errs, m, srcs, j);
    }
  }

  /** So what is assembled from fragments of a key is that key. */
  lemma PickedKey(F: Gf<byte>, key: Key, k: nat, len: nat, errs: seq<nat>, m: nat, dec: Matrix<byte>,
                  srcs: Matrix<byte>,
                  outp: Matrix<byte>, rows: Matrix<byte>)
    requires IsField(F) && k <= m <= 256 && |key| == k * len && |Survivors(m, errs)| >= k
    requires Ascending(errs) && Below(errs, 256) && Rect(srcs, k, len)
    requires FragmentsOf(F, key, k, len, FirstSurvivors(m, errs, k), srcs)
    requires RecoversAll(F, k, FirstSurvivors(m, errs, k), errs, dec)
    requires outp == EcEncodeData(F, len, dec, srcs) && |rows| == k && PicksAll(errs, outp, srcs, rows)
    ensures Join(rows) == key
  {
    forall j: nat | j < k ensures rows[j] == Split(key, k, len)[j] {
      PickedRow(F, key, k, len, errs, m, dec, srcs, outp, j, rows[j]);
    }
    assert rows == Split(key, k, len);
    JoinSplit(key, k, len);
  }

  /** The rows of the decoded key, erased ones recovered and the others as received. */
  ghost function AssembledRows(errs: seq<nat>, outp: Matrix<byte>, srcs: Matrix<byte>, k: nat): (rows: Matrix<byte>)
    requires Ascending(errs) && |outp| == |errs| && |srcs| == k
    ensures |rows| == k
  {
    seq(k, j requires 0 <= j < k => AssembledRow(errs, outp, srcs, j))
  }

  ghost function AssembledRow(errs: seq<nat>, outp: Matrix<byte>, srcs: Matrix<byte>, j: nat): Vec<byte>
    requires Ascending(errs) && |outp| == |errs| && j < |srcs|
  {
    var e := ErrsBelow(errs, j);
    SurvivorsBelow(errs, j);
    if e < |errs| && errs[e] == j then outp[e] else srcs[j - e]
  }

  lemma PicksAssembled(errs: seq<nat>, outp: Matrix<byte>, srcs: Matrix<byte>, rows: Matrix<byte>, k: nat)
    requires Ascending(errs) && |outp| == |errs| && |srcs| == k == |rows| && PicksAll(errs, outp, srcs, rows)
    ensures rows == AssembledRows(errs, outp, srcs, k)
  {
    forall j: nat | j < k ensures rows[j] == AssembledRow(errs, outp, srcs, j) {
      assert Picks(errs, outp, srcs, j, ErrsBelow(errs, j), rows[j]);
    }
  }

  lemma AssembledPicks(errs: seq<nat>, outp: Matrix<byte>, srcs: Matrix<byte>, k: nat)
    requires Ascending(errs) && |outp| == |errs| && |srcs| == k
    ensures PicksAll(errs, outp, srcs, AssembledRows(errs, outp, srcs, k))
  {
    var rows := AssembledRows(errs, outp, srcs, k);
    forall j: nat | j < k ensures Picks(errs, outp, srcs, j, ErrsBelow(errs, j), rows[j]) { SurvivorsBelow(errs, j); }
  }

  /** Interleaves recovered and received fragments. */
  method Assemble(errs: seq<nat>, outp: Matrix<byte>, srcs: Matrix<byte>, k: nat, len: nat) returns (key: Key)
    requires Ascending(errs) && Rect(outp, |errs|, len) && Rect(srcs, k, len)
    ensures key == Join(AssembledRows(errs, outp, srcs, k)) && |key| == k * len
  {
    var srcCount, outpCount, fragCount := 0, 0, 0;
    key := [];
    ghost var rows: Matrix<byte> := [];
    SurvivorsBelow(errs, 0);
    for j := 0 to k
      invariant fragCount == outpCount == ErrsBelow(errs, j) && srcCount + fragCount == j
      invariant Rect(rows, j, len) && key == Join(rows)
      invariant PicksAll(errs, outp, srcs, rows)
    {
      ErrsBelowNext(errs, j);
      var row;
      if fragCount < |errs| && j == errs[fragCount] {
        row := outp[outpCount];
        outpCount, fragCount := outpCount + 1, fragCount + 1;
      } else {
        row := srcs[srcCount];
        srcCount := srcCount + 1;
      }
      PicksNext(errs, outp, srcs, rows, row);
      key, rows := key + row, rows + [row];
    }
    JoinLength(rows, k, len);
    PicksAssembled(errs, outp, srcs, rows, k);
  }

  /** Fragments, and an erasure list that goes with them. */
  ghost predicate Decodable(L: Isal, errs: seq<nat>, srcs: Matrix<byte>, k: nat, p: nat, len: nat) {
    IsIsal(L) && k + p <= 255 && Rect(srcs, k, len) && Ascending(errs) && Below(errs, k + p) && |errs| <= p
  }

  lemma EnoughSurvive(errs: seq<nat>, k: nat, p: nat)
    requires k + p <= 255 && Ascending(errs) && Below(errs, k + p) && |errs| <= p
    ensures |Survivors(k + p, errs)| >= k
    ensures Ascending(FirstSurvivors(k + p, errs, k)) && Below(FirstSurvivors(k + p, errs, k), 256)
  {
    SurvivorsCount(k + p, errs);
    FirstSurvivorsFit(k + p, errs, k);
  }

  /** The key that decoding gives. */
  ghost function Rebuilt(L: Isal, errs: seq<nat>, srcs: Matrix<byte>, k: nat, p: nat, len: nat): Key
    requires Decodable(L, errs, srcs, k, p, len)
  {
    EnoughSurvive(errs, k, p);
    var dec := RecoveryMatrix(L, errs, k, FirstSurvivors(k + p, errs, k));
    Join(AssembledRows(errs, EcEncodeData(L.gf, len, dec, srcs), srcs, k))
  }

  lemma RebuiltLength(L: Isal, errs: seq<nat>, srcs: Matrix<byte>, k: nat, p: nat, len: nat)
    requires Decodable(L, errs, srcs, k, p, len)
    ensures |Rebuilt(L, errs, srcs, k, p, len)| == k * len
  {
    EnoughSurvive(errs, k, p);
    var outp := EcEncodeData(L.gf, len, RecoveryMatrix(L, errs, k, FirstSurvivors(k + p, errs, k)), srcs);
    forall j: nat | j < k ensures |AssembledRow(errs, outp, srcs, j)| == len { SurvivorsBelow(errs, j); }
    JoinLength(AssembledRows(errs, outp, srcs, k), k, len);
  }

  lemma AssembledKey(L: Isal, key: Key, k: nat, len: nat, errs: seq<nat>, m: nat, ids: seq<nat>, srcs: Matrix<byte>)
    requires IsIsal(L) && k <= m <= 255 && |key| == k * len && |Survivors(m, errs)| >= k
             && ids == FirstSurvivors(m, errs, k)
    requires Ascending(ids) && Below(ids, 256) && Ascending(errs) && Below(errs, 256) && Rect(srcs, k, len)
    requires FragmentsOf(L.gf, key, k, len, ids, srcs)
    ensures Join(AssembledRows(errs, EcEncodeData(L.gf, len, RecoveryMatrix(L, errs, k, ids), srcs), srcs, k)) == key
  {
    var dec := RecoveryMatrix(L, errs, k, ids);
    var outp := EcEncodeData(L.gf, len, dec, srcs);
    RecoveryMatrixRecovers(L, errs, k, ids);
    AssembledPicks(errs, outp, srcs, k);
    PickedKey(L.gf, key, k, len, errs, m, dec, srcs, outp, AssembledRows(errs, outp, srcs, k));
  }

  /** Erasure round trip: decoding the first k surviving fragments of a key, ascending, with the list of its erased
      fragments, ascending, gives that key. */
  lemma RoundTrip(L: Isal, errs: seq<nat>, srcs: Matrix<byte>, k: nat, p: nat, len: nat, key: Key)
    requires Decodable(L, errs, srcs, k, p, len) && |key| == k * len && |Survivors(k + p, errs)| >= k
    requires FragmentsOf(L.gf, key, k, len, FirstSurvivors(k + p, errs, k), srcs)
    ensures Rebuilt(L, errs, srcs, k, p, len) == key
  {
    EnoughSurvive(errs, k, p);
    AssembledKey(L, key, k, len, errs, k + p, FirstSurvivors(k + p, errs, k), srcs);
  }

  /** So whatever key the fragments came from, decoding gives that key. */
  lemma RebuiltDecodes(L: Isal, errs: seq<nat>, srcs: Matrix<byte>, k: nat, p: nat, len: nat, ids: seq<nat>)
    requires Decodable(L, errs, srcs, k, p, len) && |Survivors(k + p, errs)| >= k
             && ids == FirstSurvivors(k + p, errs, k)
    ensures DecodesTo(L.gf, k, len, ids, srcs, Rebuilt(L, errs, srcs, k, p, len))
  {
    forall key: Key | |key| == k * len
      && FragmentsOf(L.gf, key, k, len, ids, srcs) ensures Rebuilt(L, errs, srcs, k, p, len) == key {
      RoundTrip(L, errs, srcs, k, p, len, key);
    }
  }

  // ----- and back again

  lemma SliceOfFront(front: Key, last: Key, k: nat, len: nat, i: nat)
    requires i < k && |front| == k * len && |front + last| == (k + 1) * len
    ensures Slice(front + last, k + 1, len, i) == Slice(front, k, len, i)
  {
    RowFits(k, len, i);
    RowFits(k + 1, len, i);
  }

  lemma SliceOfLast(front: Key, last: Key, k: nat, len: nat)
    requires |front| == k * len && |last| == len && |front + last| == (k + 1) * len
    ensures Slice(front + last, k + 1, len, k) == last
  {
    RowFits(k + 1, len, k);
  }

  lemma {:induction false} SplitJoinPrefix(M: Matrix<byte>, k: nat, len: nat, i: nat)
    requires Rect(M, k, len) && i < k
    ensures |Join(M)| == k * len && Slice(Join(M), k, len, i) == M[i]
  {
    JoinLength(M, k, len);
    var front := M[..k - 1];
    JoinLength(front, k - 1, len);
    if i < k - 1 {
      SplitJoinPrefix(front, k - 1, len, i);
      SliceOfFront(Join(front), M[k - 1], k - 1, len, i);
    } else {
      SliceOfLast(Join(front), M[k - 1], k - 1, len);
    }
  }

  lemma SplitJoin(M: Matrix<byte>, k: nat, len: nat)
    requires Rect(M, k, len)
    ensures |Join(M)| == k * len && Split(Join(M), k, len) == M
  {
    JoinLength(M, k, len);
    forall i: nat | i < k ensures Slice(Join(M), k, len, i) == M[i] { SplitJoinPrefix(M, k, len, i); }
  }

  lemma AssembledRect(errs: seq<nat>, outp: Matrix<byte>, srcs: Matrix<byte>, k: nat, len: nat)
    requires Ascending(errs) && Rect(outp, |errs|, len) && Rect(srcs, k, len)
    ensures Rect(AssembledRows(errs, outp, srcs, k), k, len)
  {
    forall j: nat | j < k ensures |AssembledRow(errs, outp, srcs, j)| == len { SurvivorsBelow(errs, j); }
  }

  lemma RecoveredByte(L: Isal, errs: seq<nat>, srcs: Matrix<byte>, k: nat, len: nat, ids: seq<nat>, e: nat, c: nat)
    requires IsIsal(L) && Ascending(ids) && Below(ids, 256) && |ids| == k <= 256 && Below(errs, 256)
             && Rect(srcs, k, len)
    requires e < |errs| && errs[e] < k && c < len
    ensures EcEncodeData(L.gf, len, RecoveryMatrix(L, errs, k, ids), srcs)[e][c]
            == Dot(L.gf, InverseOf(L, k, ids)[errs[e]], Column(srcs, c))
  {
    assert RecoveryMatrix(L, errs, k, ids)[e] == InverseOf(L, k, ids)[errs[e]];
  }

  /** A source fragment that was received is what the inverse computes in its place. */
  lemma ReceivedByte(L: Isal, srcs: Matrix<byte>, k: nat, len: nat, ids: seq<nat>, i: nat, c: nat)
    requires IsIsal(L) && Ascending(ids) && Below(ids, 256) && |ids| == k <= 256 && Rect(srcs, k, len)
    requires i < k && ids[i] < k && c < len
    ensures srcs[i][c] == Dot(L.gf, InverseOf(L, k, ids)[ids[i]], Column(srcs, c))
  {
    var N, B, x := InverseOf(L, k, ids), GenRows(L.gf, k, ids), Column(srcs, c);
    var y := Apply(L.gf, N, x);
    LeftIsRight(L.gf, N, B, x);
    DotUnit(L.gf, k, ids[i], y);
    assert B[i] == Unit(L.gf, k, ids[i]) && Apply(L.gf, B, y)[i] == x[i];
  }

  lemma AssembledRecovered(L: Isal, errs: seq<nat>, srcs: Matrix<byte>, k: nat, m: nat, len: nat, ids: seq<nat>,
                           j: nat, c: nat)
    requires IsIsal(L) && k <= m <= 255 && |Survivors(m, errs)| >= k && ids == FirstSurvivors(m, errs, k) && j in errs
    requires Ascending(ids) && Below(ids, 256) && Ascending(errs) && Below(errs, 256) && Rect(srcs, k, len) && j < k
             && c < len
    ensures var outp := EcEncodeData(L.gf, len, RecoveryMatrix(L, errs, k, ids), srcs);
            var row := AssembledRow(errs, outp, srcs, j);
            |row| == len && row[c] == Dot(L.gf, InverseOf(L, k, ids)[j], Column(srcs, c))
  {
    ErrsBelowNext(errs, j);
    RecoveredByte(L, errs, srcs, k, len, ids, ErrsBelow(errs, j), c);
  }

  lemma AssembledReceived(L: Isal, errs: seq<nat>, srcs: Matrix<byte>, k: nat, m: nat, len: nat, ids: seq<nat>, j: nat,
                          c: nat)
    requires IsIsal(L) && k <= m <= 255 && |Survivors(m, errs)| >= k && ids == FirstSurvivors(m, errs, k) && j !in errs
    requires Ascending(ids) && Below(ids, 256) && Ascending(errs) && Below(errs, 256) && Rect(srcs, k, len) && j < k
             && c < len
    ensures var outp := EcEncodeData(L.gf, len, RecoveryMatrix(L, errs, k, ids), srcs);
            var row := AssembledRow(errs, outp, srcs, j);
            |row| == len && row[c] == Dot(L.gf, InverseOf(L, k, ids)[j], Column(srcs, c))
  {
    ErrsBelowNext(errs, j);
    SurvivorAt(errs, j, m);
    ReceivedByte(L, srcs, k, len, ids, j - ErrsBelow(errs, j), c);
  }

  /** Byte c of row j of what is assembled is row j of the inverse times byte c of the fragments. */
  lemma AssembledByte(L: Isal, errs: seq<nat>, srcs: Matrix<byte>, k: nat, m: nat, len: nat, ids: seq<nat>, j: nat,
                      c: nat)
    requires IsIsal(L) && k <= m <= 255 && |Survivors(m, errs)| >= k && ids == FirstSurvivors(m, errs, k)
    requires Ascending(ids) && Below(ids, 256) && Ascending(errs) && Below(errs, 256) && Rect(srcs, k, len) && j < k
             && c < len
    ensures var outp := EcEncodeData(L.gf, len, RecoveryMatrix(L, errs, k, ids), srcs);
            var row := AssembledRow(errs, outp, srcs, j);
            |row| == len && row[c] == Dot(L.gf, InverseOf(L, k, ids)[j], Column(srcs, c))
  {
    if j in errs {
      AssembledRecovered(L, errs, srcs, k, m, len, ids, j, c);
    } else {
      AssembledReceived(L, errs, srcs, k, m, len, ids, j, c);
    }
  }

  lemma AssembledColumn(L: Isal, errs: seq<nat>, srcs: Matrix<byte>, k: nat, m: nat, len: nat, ids: seq<nat>, c: nat)
    requires IsIsal(L) && k <= m <= 255 && |Survivors(m, errs)| >= k && ids == FirstSurvivors(m, errs, k)
    requires Ascending(ids) && Below(ids, 256) && Ascending(errs) && Below(errs, 256) && Rect(srcs, k, len) && c < len
    ensures var rows := AssembledRows(errs, EcEncodeData(L.gf, len, RecoveryMatrix(L, errs, k, ids), srcs), srcs, k);
            Rect(rows, k, len) && Column(rows, c) == Apply(L.gf, InverseOf(L, k, ids), Column(srcs, c))
  {
    var outp := EcEncodeData(L.gf, len, RecoveryMatrix(L, errs, k, ids), srcs);
    AssembledRect(errs, outp, srcs, k, len);
    forall j: nat | j < k
      ensures |AssembledRow(errs, outp, srcs, j)| == len
              && AssembledRow(errs, outp, srcs, j)[c] == Dot(L.gf, InverseOf(L, k, ids)[j], Column(srcs, c))
    {
      AssembledByte(L, errs, srcs, k, m, len, ids, j, c);
    }
  }

  /** Encoding what is assembled gives the fragments back, byte by byte. */
  lemma ReencodedByte(L: Isal, errs: seq<nat>, srcs: Matrix<byte>, k: nat, m: nat, len: nat, ids: seq<nat>, i: nat,
                      c: nat)
    requires IsIsal(L) && k <= m <= 255 && |Survivors(m, errs)| >= k && ids == FirstSurvivors(m, errs, k) && i < k
    requires Ascending(ids) && Below(ids, 256) && Ascending(errs) && Below(errs, 256) && Rect(srcs, k, len) && c < len
    ensures var rows := AssembledRows(errs, EcEncodeData(L.gf, len, RecoveryMatrix(L, errs, k, ids), srcs), srcs, k);
            Rect(rows, k, len) && Dot(L.gf, GenRow(L.gf, k, ids[i]), Column(rows, c)) == srcs[i][c]
  {
    AssembledColumn(L, errs, srcs, k, m, len, ids, c);
    var x := Column(srcs, c);
    var y := Apply(L.gf, InverseOf(L, k, ids), x);
    LeftIsRight(L.gf, InverseOf(L, k, ids), GenRows(L.gf, k, ids), x);
    assert Apply(L.gf, GenRows(L.gf, k, ids), y)[i] == x[i];
  }

  lemma ReencodedRow(L: Isal, errs: seq<nat>, srcs: Matrix<byte>, k: nat, m: nat, len: nat, ids: seq<nat>, i: nat)
    requires IsIsal(L) && k <= m <= 255 && |Survivors(m, errs)| >= k && ids == FirstSurvivors(m, errs, k) && i < k
    requires Ascending(ids) && Below(ids, 256) && Ascending(errs) && Below(errs, 256) && Rect(srcs, k, len)
    ensures var rows := AssembledRows(errs, EcEncodeData(L.gf, len, RecoveryMatrix(L, errs, k, ids), srcs), srcs, k);
            Rect(rows, k, len) && RowTimes(L.gf, len, GenRow(L.gf, k, ids[i]), rows) == srcs[i]
  {
    var outp := EcEncodeData(L.gf, len, RecoveryMatrix(L, errs, k, ids), srcs);
    var rows := AssembledRows(errs, outp, srcs, k);
    AssembledRect(errs, outp, srcs, k, len);
    forall c: nat | c < len ensures Dot(L.gf, GenRow(L.gf, k, ids[i]), Column(rows, c)) == srcs[i][c] {
      ReencodedByte(L, errs, srcs, k, m, len, ids, i, c);
    }
  }

  /** Whatever the fragments are, the rebuilt key has exactly these fragments. */
  lemma Reencodes(L: Isal, errs: seq<nat>, srcs: Matrix<byte>, k: nat, p: nat, len: nat, ids: seq<nat>)
    requires Decodable(L, errs, srcs, k, p, len) && |Survivors(k + p, errs)| >= k
             && ids == FirstSurvivors(k + p, errs, k)
    ensures |Rebuilt(L, errs, srcs, k, p, len)| == k * len
    ensures FragmentsOf(L.gf, Rebuilt(L, errs, srcs, k, p, len), k, len, ids, srcs)
  {
    EnoughSurvive(errs, k, p);
    var outp := EcEncodeData(L.gf, len, RecoveryMatrix(L, errs, k, ids), srcs);
    var rows, key := AssembledRows(errs, outp, srcs, k), Rebuilt(L, errs, srcs, k, p, len);
    AssembledRect(errs, outp, srcs, k, len);
    SplitJoin(rows, k, len);
    forall i: nat | i < k ensures srcs[i] == FragmentOf(L.gf, key, k, len, ids[i]) {
      ReencodedRow(L, errs, srcs, k, k + p, len, ids, i);
    }
  }

  /** Rebuilds the key from fragments. */
  method Decode(L: Isal, fragErrList: seq<nat>, srcs: Matrix<byte>, k: nat, p: nat, len: nat) returns (key: Key)
    requires Decodable(L, fragErrList, srcs, k, p, len)
    ensures |key| == k * len && key == Rebuilt(L, fragErrList, srcs, k, p, len)
  {
    EnoughSurvive(fragErrList, k, p);
    var ret, decodeMatrix, decodeIndex := GenDecodeMatrix(L, fragErrList, k, k + p);
    var recoverOutp := EcEncodeData(L.gf, len, decodeMatrix, srcs);
    key := Assemble(fragErrList, recoverOutp, srcs, k, len);
  }
}
