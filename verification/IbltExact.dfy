/** A dump of a FlowRadar table cell by cell, in whatever order, and which of the counts it reports are exact. */
module IbltExact {
  import opened Bytes
  import opened IbltSpec

  // ----- a dump, cell by cell

  /** What is left in the middle of a dump, and what has been reported. */
  datatype Left = Left(table: set<Key>, pending: map<Key, int>, result: map<Key, int>)

  /** After peeling cell c: the key it shows is reported with the packets it shows, and both are taken out. */
  function Peeled(s: Shape, ks: seq<Key>, st: Left, c: nat): Left
    requires s.Valid()
  {
    var key, count := XorOf(s, ks, st.table, c), Packets(s, ks, st.pending, c);
    Left(st.table - {key}, st.pending[key := Get(st.pending, key) - count], st.result[key := count])
  }

  function AfterPeels(s: Shape, ks: seq<Key>, st: Left, cells: seq<nat>): Left
    requires s.Valid()
  {
    if cells == [] then st else Peeled(s, ks, AfterPeels(s, ks, st, cells[..|cells| - 1]), cells[|cells| - 1])
  }

  /** Each of the cells, in turn, has total multiplicity 1 when it is peeled. */
  ghost predicate PeelsAll(s: Shape, ks: seq<Key>, st: Left, cells: seq<nat>)
    requires s.Valid()
  {
    cells == [] || (PeelsAll(s, ks, st, cells[..|cells| - 1]) && cells[|cells| - 1] < s.wIblt
                    && Load(s, ks, AfterPeels(s, ks, st, cells[..|cells| - 1]).table, cells[|cells| - 1]) == 1)
  }

  /** Peeling the cells in turn leads from `st` to `st'`. */
  ghost predicate Trail(s: Shape, ks: seq<Key>, st: Left, cells: seq<nat>, st': Left)
    requires s.Valid()
  {
    PeelsAll(s, ks, st, cells) && st' == AfterPeels(s, ks, st, cells)
  }

  lemma TrailOne(s: Shape, ks: seq<Key>, st: Left, c: nat)
    requires s.Valid() && c < s.wIblt && Load(s, ks, st.table, c) == 1
    ensures Trail(s, ks, st, [c], Peeled(s, ks, st, c))
  {
    var one: seq<nat> := [c];
    assert one[..0] == [] && AfterPeels(s, ks, st, one[..0]) == st;
  }

  lemma {:induction false} TrailThen(s: Shape, ks: seq<Key>, st: Left, a: seq<nat>, st1: Left, b: seq<nat>, st2: Left)
    requires s.Valid() && Trail(s, ks, st, a, st1) && Trail(s, ks, st1, b, st2)
    ensures Trail(s, ks, st, a + b, st2)
  {
    if b == [] {
      assert a + b == a;
    } else {
      var n := |b| - 1;
      TrailThen(s, ks, st, a, st1, b[..n], AfterPeels(s, ks, st1, b[..n]));
      assert (a + b)[..|a| + n] == a + b[..n];
    }
  }

  lemma PeeledFits(s: Shape, ks: seq<Key>, st: Left, c: nat)
    requires s.Valid() && WellFormed(s, ks, st.table, st.pending) && c < s.wIblt && Load(s, ks, st.table, c) == 1
    ensures var st' := Peeled(s, ks, st, c);
            WellFormed(s, ks, st'.table, st'.pending) && |st'.table| + 1 == |st.table|
            && Core(s, ks, st'.table) == Core(s, ks, st.table) && XorOf(s, ks, st.table, c) in st.table
            && XorOf(s, ks, st.table, c) in st.pending
  {
    var key := XorOf(s, ks, st.table, c);
    PureCell(s, ks, st.table, c);
    InElems(ks, key);
    PeelKeepsCore(s, ks, st.table, key, c);
  }

  /** Whatever is peeled, in whatever order: the content stays well formed, each peel takes one key, and none touches
      the largest unpeelable set. */
  lemma {:induction false} TrailFits(s: Shape, ks: seq<Key>, st: Left, cells: seq<nat>)
    requires s.Valid() && WellFormed(s, ks, st.table, st.pending) && PeelsAll(s, ks, st, cells)
    ensures var st' := AfterPeels(s, ks, st, cells);
            WellFormed(s, ks, st'.table, st'.pending) && |st'.table| + |cells| == |st.table|
            && Core(s, ks, st'.table) == Core(s, ks, st.table)
  {
    if cells != [] {
      var n := |cells| - 1;
      TrailFits(s, ks, st, cells[..n]);
      PeeledFits(s, ks, AfterPeels(s, ks, st, cells[..n]), cells[n]);
    }
  }

  lemma ShownKey(s: Shape, ks: seq<Key>, t: set<Key>, w: map<Key, int>, c: nat)
    requires s.Valid() && WellFormed(s, ks, t, w) && Load(s, ks, t, c) == 1
    ensures XorOf(s, ks, t, c) in t && XorOf(s, ks, t, c) in w
    ensures NothingOwed(ks, t, w) ==> Packets(s, ks, w, c) == Get(w, XorOf(s, ks, t, c))
  {
    PureCell(s, ks, t, c);
    InElems(ks, XorOf(s, ks, t, c));
    if NothingOwed(ks, t, w) { PureCellPackets(s, ks, t, w, c); }
  }

  lemma PeeledReported(s: Shape, ks: seq<Key>, st: Left, st1: Left, c: nat)
    requires s.Valid() && WellFormed(s, ks, st1.table, st1.pending) && c < s.wIblt && Load(s, ks, st1.table, c) == 1
    requires Reported(ks, st.table, st.pending, st.result, st1.table, st1.pending, st1.result)
    ensures var st' := Peeled(s, ks, st1, c);
            Reported(ks, st.table, st.pending, st.result, st'.table, st'.pending, st'.result)
  {
    var key, count := XorOf(s, ks, st1.table, c), Packets(s, ks, st1.pending, c);
    ShownKey(s, ks, st1.table, st1.pending, c);
    ReportedNext(ks, st.table, st.pending, st.result, st1.table, st1.pending, st1.result, key, count);
  }

  /** And the report accounts for what left the table. */
  lemma {:induction false} TrailReported(s: Shape, ks: seq<Key>, st: Left, cells: seq<nat>)
    requires s.Valid() && WellFormed(s, ks, st.table, st.pending) && PeelsAll(s, ks, st, cells)
    ensures var st' := AfterPeels(s, ks, st, cells);
            Reported(ks, st.table, st.pending, st.result, st'.table, st'.pending, st'.result)
  {
    if cells != [] {
      var n := |cells| - 1;
      TrailFits(s, ks, st, cells[..n]);
      TrailReported(s, ks, st, cells[..n]);
      PeeledReported(s, ks, st, AfterPeels(s, ks, st, cells[..n]), cells[n]);
    }
  }

  // ----- which reported counts are exact

  /** No rejected key, one that is known but not in the table, hashes to cell c. */
  ghost predicate Clean(s: Shape, ks: seq<Key>, t: set<Key>, c: nat)
    requires s.Valid()
  {
    forall k | k in ks && k !in t :: s.Mult(k, c) == 0
  }

  ghost predicate AllClean(s: Shape, ks: seq<Key>, t: set<Key>, cells: seq<nat>)
    requires s.Valid()
  {
    forall i | 0 <= i < |cells| :: Clean(s, ks, t, cells[i])
  }

  /** Rejected keys have packets in the table. */
  ghost predicate RejectedOwe(ks: seq<Key>, t: set<Key>, w: map<Key, int>) {
    forall k | k in ks && k !in t :: Get(w, k) > 0
  }

  /** Every key that left the table was reported with the packets it had. */
  ghost predicate ReportsExact(st: Left, st': Left) {
    forall k | k in st.table - st'.table :: Get(st'.result, k) == Get(st.pending, k)
  }

  /** Weights that reach the cell and are not negative add up to 0 only if they are 0. */
  lemma {:induction false} PacketsSign(s: Shape, ks: seq<Key>, w: map<Key, int>, c: nat)
    requires s.Valid() && forall k | k in ks :: s.Mult(k, c) == 0 || Get(w, k) >= 0
    ensures Packets(s, ks, w, c) >= 0
    ensures Packets(s, ks, w, c) == 0 <==> forall k | k in ks :: s.Mult(k, c) == 0 || Get(w, k) == 0
  {
    if ks != [] {
      var n := |ks| - 1;
      assert ks[n] in ks && forall k | k in ks[..n] :: k in ks;
      PacketsSign(s, ks[..n], w, c);
      MulSign(s.Mult(ks[n], c), Get(w, ks[n]));
      assert forall k | k in ks :: k == ks[n] || k in ks[..n];
    }
  }

  lemma MulSign(a: nat, b: int)
    requires a == 0 || b >= 0
    ensures a * b >= 0 && (a * b == 0 <==> a == 0 || b == 0)
  {
  }

  /** A cell of load 1 shows the exact packets of its key if and only if no owing key outside the table hashes there. */
  lemma CountExactIff(s: Shape, ks: seq<Key>, t: set<Key>, w: map<Key, int>, c: nat)
    requires s.Valid() && NoDup(ks) && SameLen(s, ks) && Load(s, ks, t, c) == 1
    requires forall k | k in ks && k !in t :: Get(w, k) >= 0
    ensures Packets(s, ks, w, c) == Get(w, XorOf(s, ks, t, c))
            <==> forall k | k in ks && k !in t :: s.Mult(k, c) == 0 || Get(w, k) == 0
  {
    PureCell(s, ks, t, c);
    var key := XorOf(s, ks, t, c);
    var w' := w[key := Get(w, key) - Get(w, key)];
    TakeOut(s, ks, t, w, key, Get(w, key), c);
    PacketsSign(s, ks, w', c);
  }

  /** In the middle of an exact dump only rejected keys owe packets, so the next count is exact if and only if the cell
      is clean. */
  lemma NextExactIff(s: Shape, ks: seq<Key>, st: Left, st1: Left, c: nat)
    requires s.Valid() && NoDup(ks) && SameLen(s, ks) && Load(s, ks, st1.table, c) == 1
    requires Reported(ks, st.table, st.pending, st.result, st1.table, st1.pending, st1.result)
    requires RejectedOwe(ks, st.table, st.pending) && ReportsExact(st, st1)
    ensures Packets(s, ks, st1.pending, c) == Get(st.pending, XorOf(s, ks, st1.table, c)) <==> Clean(s, ks, st.table, c)
  {
    PureCell(s, ks, st1.table, c);
    forall k | k in ks && k !in st1.table
      ensures Get(st1.pending, k) == if k in st.table then 0 else Get(st.pending, k)
    {
      assert k in st.table ==> k in st.table - st1.table;
    }
    CountExactIff(s, ks, st1.table, st1.pending, c);
    assert forall k | k in ks && k !in st.table :: k !in st1.table;
    assert forall k | k in ks && k !in st1.table && Get(st1.pending, k) != 0 :: k !in st.table;
  }

  lemma ReportsNext(s: Shape, ks: seq<Key>, st: Left, st1: Left, c: nat)
    requires s.Valid() && NoDup(ks) && SameLen(s, ks) && Load(s, ks, st1.table, c) == 1 && st1.table <= st.table
    ensures ReportsExact(st, Peeled(s, ks, st1, c)) <==>
            ReportsExact(st, st1) && Packets(s, ks, st1.pending, c) == Get(st.pending, XorOf(s, ks, st1.table, c))
  {
    PureCell(s, ks, st1.table, c);
    var key, st2 := XorOf(s, ks, st1.table, c), Peeled(s, ks, st1, c);
    assert st.table - st2.table == (st.table - st1.table) + {key};
    assert key !in st.table - st1.table;
  }

  /** The counts a dump reports are all exact if and only if no rejected key hashes to a cell that it peels. */
  lemma {:induction false} TrailExactIff(s: Shape, ks: seq<Key>, st: Left, cells: seq<nat>)
    requires s.Valid() && WellFormed(s, ks, st.table, st.pending) && RejectedOwe(ks, st.table, st.pending)
    requires PeelsAll(s, ks, st, cells)
    ensures ReportsExact(st, AfterPeels(s, ks, st, cells)) <==> AllClean(s, ks, st.table, cells)
  {
    if cells != [] {
      var n := |cells| - 1;
      var st1 := AfterPeels(s, ks, st, cells[..n]);
      TrailExactIff(s, ks, st, cells[..n]);
      TrailReported(s, ks, st, cells[..n]);
      ReportsNext(s, ks, st, st1, cells[n]);
      CleanNext(s, ks, st.table, cells);
      if ReportsExact(st, st1) { NextExactIff(s, ks, st, st1, cells[n]); }
    }
  }

  lemma CleanNext(s: Shape, ks: seq<Key>, t: set<Key>, cells: seq<nat>)
    requires s.Valid() && cells != []
    ensures var n := |cells| - 1;
            AllClean(s, ks, t, cells) <==> AllClean(s, ks, t, cells[..n]) && Clean(s, ks, t, cells[n])
  {
    var n := |cells| - 1;
    assert forall i | 0 <= i < n :: cells[..n][i] == cells[i];
  }

  /** In some order of peels, cell c comes to show a single key. */
  ghost predicate CanShow(s: Shape, ks: seq<Key>, st: Left, c: nat)
    requires s.Valid()
  {
    exists cells :: PeelsAll(s, ks, st, cells) && c in cells
  }

  ghost predicate ExactInEveryOrder(s: Shape, ks: seq<Key>, st: Left)
    requires s.Valid()
  {
    forall cells | PeelsAll(s, ks, st, cells) :: ReportsExact(st, AfterPeels(s, ks, st, cells))
  }

  /** The reported counts are exact in every order of peels if and only if no rejected key hashes to a cell that can
      come to show a single key. */
  lemma EveryOrderExactIff(s: Shape, ks: seq<Key>, st: Left)
    requires s.Valid() && WellFormed(s, ks, st.table, st.pending) && RejectedOwe(ks, st.table, st.pending)
    ensures ExactInEveryOrder(s, ks, st) <==> forall c | CanShow(s, ks, st, c) :: Clean(s, ks, st.table, c)
  {
    if ExactInEveryOrder(s, ks, st) {
      forall c | CanShow(s, ks, st, c) ensures Clean(s, ks, st.table, c) {
        var cells :| PeelsAll(s, ks, st, cells) && c in cells;
        TrailExactIff(s, ks, st, cells);
        var i :| 0 <= i < |cells| && cells[i] == c;
      }
    }
    if forall c | CanShow(s, ks, st, c) :: Clean(s, ks, st.table, c) {
      forall cells | PeelsAll(s, ks, st, cells) ensures ReportsExact(st, AfterPeels(s, ks, st, cells)) {
        forall i | 0 <= i < |cells| ensures Clean(s, ks, st.table, cells[i]) {
          assert cells[i] in cells;
          assert CanShow(s, ks, st, cells[i]);
        }
        TrailExactIff(s, ks, st, cells);
      }
    }
  }

  /** Rejected keys of a stream have packets in the table. */
  lemma StreamOwes(s: Shape, data: seq<Key>)
    requires s.Valid()
    ensures var st := Building(s, Empty(s), data); RejectedOwe(st.known, st.table, st.pending)
  {
    BuildingCounts(s, data);
  }

  lemma InsertingFits(s: Shape, st: Contents, key: Key)
    requires s.Valid() && |st.bits| == s.wBf && |key| == s.keyLen && WellFormed(s, st.known, st.table, st.pending)
    requires AllInFilter(s, st.bits, st.known)
    ensures var st' := Inserting(s, st, key, 1); WellFormed(s, st'.known, st'.table, st'.pending)
  {
    var admitted := !InFilter(s, st.bits, key);
    if key in st.known { KnownIsSeen(s, st.bits, st.known, key); }
    Inserted(s, st.known, st.table, st.pending, key, 1, admitted);
  }

  /** The content after a stream is well formed. */
  lemma {:induction false} BuildingFits(s: Shape, data: seq<Key>)
    requires s.Valid() && forall k | k in data :: |k| == s.keyLen
    ensures var st := Building(s, Empty(s), data); WellFormed(s, st.known, st.table, st.pending)
  {
    if data != [] {
      var n := |data| - 1;
      var st, key := Building(s, Empty(s), data[..n]), data[n];
      assert key in data && forall k | k in data[..n] :: k in data;
      BuildingFits(s, data[..n]);
      BuildingFilter(s, data[..n]);
      InsertingFits(s, st, key);
    }
  }

  // ----- a filter that errs, with and without a wrong report

  /** One filter hash, which always picks the same bit, and one table hash: key [1] goes to cell `second`, others to
      cell 0. */
  function TinyShape(second: nat): (s: Shape)
    requires second < 2
    ensures s.Valid()
  {
    Shape(1, 1, 1, 64, 2, (i: nat, key: Key) => if i == 1 && key == [1] then second else 0)
  }

  /** The content after one packet of [0] and one of [1]: the second key was rejected. */
  lemma TinyContent(second: nat) returns (st: Contents)
    requires second < 2
    ensures st == Building(TinyShape(second), Empty(TinyShape(second)), [[0], [1]])
    ensures st.known == [[0], [1]] && st.table == {[0]} && st.pending == map[[0] := 1, [1] := 1]
    ensures !GateNeverErred(TinyShape(second), [[0], [1]])
  {
    var s := TinyShape(second);
    var a: Key, b: Key := [0], [1];
    var one: seq<Key>, two: seq<Key> := [a], [a, b];
    assert one[..0] == [] && two[..1] == one;
    var st0, st1 := Empty(s), Building(s, Empty(s), one);
    assert Building(s, st0, one[..0]) == st0;
    assert st1 == Inserting(s, st0, a, 1);
    assert !st0.bits[s.Bit(0, a)] && !InFilter(s, st0.bits, a);
    assert Marked(s, st0.bits, a, 0) == st0.bits && Marked(s, st0.bits, a, 1)[0];
    assert st1.known == [a] && st1.table == {a} && st1.pending == map[a := 1];
    assert InFilter(s, st1.bits, b);
    st := Building(s, Empty(s), two);
    assert st == Inserting(s, st1, b, 1) && a != b && b !in one;
  }

  lemma TinyHits(second: nat)
    requires second < 2
    ensures var s := TinyShape(second);
            s.Mult([0], 0) == 1 && s.Mult([0], 1) == 0 && s.Mult([1], 0) == (if second == 0 then 1 else 0)
  {
    var s := TinyShape(second);
    assert s.Cell(0, [0]) == 0 && s.Cell(0, [1]) == second;
    assert s.Hits([0], 0, 0) == 0 && s.Hits([0], 1, 0) == 0 && s.Hits([1], 0, 0) == 0;
  }

  lemma TinyLoad(s: Shape, a: Key, b: Key, t: set<Key>, c: nat)
    requires s.Valid() && b !in t
    ensures Load(s, [a, b], t, c) == if a in t then s.Mult(a, c) else 0
  {
    var two: seq<Key> := [a, b];
    assert two[..1] == [a] && two[..1][..0] == [];
    assert Load(s, two[..1], t, c) == if a in t then s.Mult(a, c) else 0;
  }

  /** Only cell 0 ever shows a key. */
  lemma TinyShows(cells: seq<nat>, c: nat)
    requires var left := Left({[0]}, map[[0] := 1, [1] := 1], map[]);
             PeelsAll(TinyShape(1), [[0], [1]], left, cells) && c in cells
    ensures c == 0
  {
    var s := TinyShape(1);
    var ks: seq<Key>, left := [[0], [1]], Left({[0]}, map[[0] := 1, [1] := 1], map[]);
    var n := |cells| - 1;
    if cells[n] == c {
      var t := AfterPeels(s, ks, left, cells[..n]).table;
      TrailWithin(s, ks, left, cells[..n]);
      TinyLoad(s, [0], [1], t, c);
      TinyHits(1);
    } else {
      TinyShows(cells[..n], c);
    }
  }

  lemma {:induction false} TrailWithin(s: Shape, ks: seq<Key>, st: Left, cells: seq<nat>)
    requires s.Valid()
    ensures AfterPeels(s, ks, st, cells).table <= st.table
  {
    if cells != [] { TrailWithin(s, ks, st, cells[..|cells| - 1]); }
  }

  /** The filter may err without a wrong report: if the rejected key hashes to another cell, the count of [0] is exact
      in every order of peels. */
  lemma GateErredYetExact()
    ensures var s := TinyShape(1);
            var st := Building(s, Empty(s), [[0], [1]]);
            var left := Left(st.table, st.pending, map[]);
            !GateNeverErred(s, [[0], [1]]) && ExactInEveryOrder(s, st.known, left) && PeelsAll(s, st.known, left, [0])
  {
    var s := TinyShape(1);
    var st := TinyContent(1);
    var left := Left(st.table, st.pending, map[]);
    BuildingFits(s, [[0], [1]]);
    StreamOwes(s, [[0], [1]]);
    TinyHits(1);
    TinyLoad(s, [0], [1], st.table, 0);
    TrailOne(s, st.known, left, 0);
    forall c | CanShow(s, st.known, left, c) ensures Clean(s, st.known, left.table, c) {
      var cells :| PeelsAll(s, st.known, left, cells) && c in cells;
      TinyShows(cells, c);
    }
    EveryOrderExactIff(s, st.known, left);
  }

  /** And it may err with one: if the rejected key shares the cell, two packets are reported for [0], which had one. */
  lemma GateErredAndWrong()
    ensures var s := TinyShape(0);
            var st := Building(s, Empty(s), [[0], [1]]);
            var left := Left(st.table, st.pending, map[]);
            PeelsAll(s, st.known, left, [0]) && !ReportsExact(left, AfterPeels(s, st.known, left, [0]))
  {
    var s := TinyShape(0);
    var st := TinyContent(0);
    var left := Left(st.table, st.pending, map[]);
    BuildingFits(s, [[0], [1]]);
    StreamOwes(s, [[0], [1]]);
    TinyHits(0);
    TinyLoad(s, [0], [1], st.table, 0);
    TrailOne(s, st.known, left, 0);
    var cells: seq<nat> := [0];
    TrailExactIff(s, st.known, left, cells);
    var b: Key := [1];
    assert b in st.known && b !in st.table && !Clean(s, st.known, left.table, cells[0]);
  }
}
