/** The FlowRadar table: a Bloom filter that admits each key once, and an invertible table
    of XOR sums that `Dump` peels. */
module Iblt {
  import opened Bytes
  import opened IbltSpec
  import opened IbltExact
  import opened IbltHashes
  import opened Streams

  class InsertableIblt {
    const s: Shape
    var bf: array<bool>
    var iblt: array<Node>
    var numFlow: int

    /** Distinct keys inserted since construction or the last Clear, in order of first insertion. */
    ghost var known: seq<Key>
    /** The keys among them that were admitted and not reported yet. */
    ghost var table: set<Key>
    /** For each known key, the packets inserted for it minus the packets reported for it. */
    ghost var pending: map<Key, int>

    ghost predicate Valid()
      reads this, bf, iblt
    {
      && s.Valid() && bf.Length == s.wBf && iblt.Length == s.wIblt
      && WellFormed(s, known, table, pending)
      && iblt[..] == CellsOf(s, known, table, pending)
      && AllInFilter(s, bf[..], known)
    }

    constructor (s: Shape)
      requires s.Valid()
      ensures Valid() && this.s == s && fresh(bf) && fresh(iblt)
      ensures bf[..] == seq(s.wBf, _ => false) && known == [] && table == {} && pending == map[] && numFlow == 0
    {
      this.s := s;
      bf := new bool[s.wBf](_ => false);
      iblt := new Node[s.wIblt](_ => Node(Zero(s.keyLen), 0, 0));
      numFlow := 0;
      known, table, pending := [], {}, map[];
    }

    /** Empties the filter and the table; the flow counter is not reset. */
    method Clear()
      requires Valid()
      modifies this, bf, iblt
      ensures Valid() && bf == old(bf) && iblt == old(iblt)
      ensures known == [] && table == {} && pending == map[] && numFlow == old(numFlow)
      ensures forall i | 0 <= i < bf.Length :: !bf[i]
    {
      for i := 0 to bf.Length
        invariant forall j | 0 <= j < i :: !bf[j]
        modifies bf
      {
        bf[i] := false;
      }
      for i := 0 to iblt.Length
        invariant forall j | 0 <= j < i :: iblt[j] == Node(Zero(s.keyLen), 0, 0)
        modifies iblt
      {
        iblt[i] := Node(Zero(s.keyLen), 0, 0);
      }
      known, table, pending := [], {}, map[];
    }

    /** Sets the filter bits of `key`; `seen` tells whether all of them were set already. */
    method MarkFilter(key: Key) returns (seen: bool)
      requires s.Valid() && bf.Length == s.wBf
      modifies bf
      ensures seen == InFilter(s, old(bf[..]), key)
      ensures bf[..] == Marked(s, old(bf[..]), key, s.bfK)
      // the bits are those that the first bfK hashes pick
      ensures seen == AllBitsSet(s, old(bf[..]), key) && BitsMarked(s, old(bf[..]), bf[..], key)
    {
      InFilterHashes(s, bf[..], key);
      seen := true;
      for i: nat := 0 to s.bfK
        invariant seen <==> forall j: nat | j < i :: old(bf[..])[s.Bit(j, key)]
        invariant bf[..] == Marked(s, old(bf[..]), key, i)
      {
        var index := s.Bit(i, key);
        MarkedBits(s, old(bf[..]), key, i);
        assert bf[index] == bf[..][index];
        if !bf[index] { seen := false; }
        bf[index] := true;
      }
      MarkedIsMarking(s, old(bf[..]), key);
    }

    /** The insertion loop over the table hashes of `key`. */
    method PutInCells(key: Key, f: int, admitted: bool)
      requires s.Valid() && iblt.Length == s.wIblt && |key| == s.keyLen
      requires forall c | 0 <= c < s.wIblt :: |iblt[c].flowSum| == s.keyLen
      modifies this`numFlow, iblt
      ensures iblt[..] == PutAll(s, old(iblt[..]), key, s.ibltK, f, admitted)
      ensures numFlow == old(numFlow) + if admitted then s.ibltK else 0
    {
      for i: nat := 0 to s.ibltK
        invariant forall c: nat | c < s.wIblt :: iblt[c] == Put(old(iblt[c]), key, s.Hits(key, c, i), f, admitted)
        invariant numFlow == old(numFlow) + if admitted then i else 0
      {
        var index := s.Cell(i, key);
        if admitted {
          numFlow := numFlow + 1;
          var sum := XorInto(iblt[index].flowSum, key);
          iblt[index] := iblt[index].(flowSum := sum, flowNum := iblt[index].flowNum + 1);
        }
        iblt[index] := iblt[index].(packetNum := iblt[index].packetNum + f);
        PutNext(old(iblt[index]), key, s.Hits(key, index, i), f, admitted);
      }
    }

    /** The removal loop over the table hashes of `key`. */
    method TakeFromCells(key: Key, count: int)
      requires s.Valid() && iblt.Length == s.wIblt && |key| == s.keyLen
      requires forall c | 0 <= c < s.wIblt :: |iblt[c].flowSum| == s.keyLen
      modifies iblt
      ensures iblt[..] == TakeAll(s, old(iblt[..]), key, s.ibltK, count)
    {
      for j: nat := 0 to s.ibltK
        invariant forall c: nat | c < s.wIblt :: iblt[c] == Take(old(iblt[c]), key, s.Hits(key, c, j), count)
      {
        var index := s.Cell(j, key);
        var sum := XorInto(iblt[index].flowSum, key);
        iblt[index] := Node(sum, iblt[index].flowNum - 1, iblt[index].packetNum - count);
        TakeNext(old(iblt[index]), key, s.Hits(key, index, j), count);
      }
    }

    /** Inserts `f` packets of `key`. The key enters the table only if some filter bit was clear. */
    method Insert(key: Key, f: int)
      requires Valid() && |key| == s.keyLen
      modifies this, bf, iblt
      ensures Valid() && bf == old(bf) && iblt == old(iblt)
      ensures known == WithKey(old(known), key)
      ensures table == if InFilter(s, old(bf[..]), key) then old(table) else old(table) + {key}
      ensures pending == old(pending)[key := Get(old(pending), key) + f]
      ensures numFlow == old(numFlow) + if InFilter(s, old(bf[..]), key) then 0 else s.ibltK
      ensures bf[..] == Marked(s, old(bf[..]), key, s.bfK)
    {
      assert forall c | 0 <= c < s.wIblt :: iblt[c] == iblt[..][c];
      ghost var bits, ks, t, w := bf[..], known, table, pending;
      var seen := MarkFilter(key);
      PutInCells(key, f, !seen);
      if key in ks { KnownIsSeen(s, bits, ks, key); }
      Inserted(s, ks, t, w, key, f, !seen);
      MarkedAll(s, bits, key, ks);
      pending := w[key := Get(w, key) + f];
      known := WithKey(ks, key);
      table := if seen then t else t + {key};
    }

    ghost function Holds(): (st: Contents)
      reads this, bf
    {
      Contents(bf[..], known, table, pending)
    }

    /** One packet of one key. */
    method InsertOne(key: Key)
      requires Valid() && |key| == s.keyLen
      modifies this, bf, iblt
      ensures Valid() && bf == old(bf) && iblt == old(iblt)
      ensures Holds() == Inserting(s, old(Holds()), key, 1)
    {
      Insert(key, 1);
    }

    /** One packet of each key of `data`. */
    method Build(data: seq<Key>)
      requires Valid() && forall k | k in data :: |k| == s.keyLen
      modifies this, bf, iblt
      ensures Valid() && bf == old(bf) && iblt == old(iblt)
      ensures Holds() == Building(s, old(Holds()), data)
    {
      ghost var st0 := Holds();
      for i := 0 to |data|
        invariant Valid() && bf == old(bf) && iblt == old(iblt)
        invariant Holds() == Building(s, st0, data[..i])
      {
        InsertOne(data[i]);
        BuildingNext(s, st0, data, i);
      }
      assert data[..|data|] == data;
    }

    /** What is left, together with a report. */
    ghost function Now(result: map<Key, int>): Left
      reads this
    {
      Left(table, pending, result)
    }

    /** Takes the key that cell `i` shows, and the packets it shows, out of all cells of the key. */
    method Peel(i: nat) returns (key: Key, count: int)
      requires Valid() && i < s.wIblt && iblt[i].flowNum == 1
      modifies this`table, this`pending, iblt
      ensures Valid()
      ensures Load(s, known, old(table), i) == 1 && key in old(table) && s.Mult(key, i) == 1
      ensures key == XorOf(s, known, old(table), i) && count == Packets(s, known, old(pending), i)
      ensures table == old(table) - {key}
      ensures pending == old(pending)[key := Get(old(pending), key) - count]
    {
      assert iblt[i] == iblt[..][i];
      PureCell(s, known, table, i);
      key := iblt[i].flowSum;
      count := iblt[i].packetNum;
      ghost var t, w := table, pending;
      TakeFromCells(key, count);
      Removed(s, known, t, w, key, count);
      table, pending := t - {key}, w[key := Get(w, key) - count];
    }

    /** Visits one cell: peels and reports its key if the flow counter is 1. */
    method Visit(i: nat, r0: map<Key, int>) returns (result: map<Key, int>, quiet: bool, ghost cells: seq<nat>)
      requires Valid() && i < s.wIblt
      modifies this`table, this`pending, iblt
      ensures Valid() && Trail(s, known, old(Now(r0)), cells, Now(result))
      ensures if quiet then cells == [] && Load(s, known, table, i) != 1 else cells == [i]
    {
      result, quiet, cells := r0, true, [];
      assert iblt[i] == iblt[..][i];
      if iblt[i].flowNum == 1 {
        var key, count := Peel(i);
        TrailOne(s, known, old(Now(r0)), i);
        result, quiet, cells := result[key := count], false, [i];
      }
    }

    /** One pass over all cells; `quiet` if no flow counter was 1. */
    method Pass(r0: map<Key, int>) returns (result: map<Key, int>, quiet: bool, ghost cells: seq<nat>)
      requires Valid()
      modifies this`table, this`pending, iblt
      ensures Valid() && Trail(s, known, old(Now(r0)), cells, Now(result))
      ensures if quiet then cells == [] && IsCore(s, known, table) else cells != []
    {
      result, quiet, cells := r0, true, [];
      for i: nat := 0 to s.wIblt
        invariant Valid() && Trail(s, known, old(Now(r0)), cells, Now(result))
        invariant if quiet then cells == [] && NoneShows(s, known, table, i) else cells != []
      {
        ghost var done, st, more := cells, Now(result), [];
        var still;
        result, still, more := Visit(i, result);
        TrailThen(s, known, old(Now(r0)), done, st, more, Now(result));
        quiet, cells := quiet && still, done + more;
      }
    }

    /** Peels until a whole pass finds no cell with flow counter 1. */
    method Dump(r0: map<Key, int>) returns (result: map<Key, int>, passes: nat, ghost cells: seq<nat>)
      requires Valid()
      modifies this`table, this`pending, iblt
      ensures Valid() && Trail(s, known, old(Now(r0)), cells, Now(result))
      // it stops with the one largest unpeelable subset of what was in the table
      ensures table == Core(s, known, old(table))
      // every key with a cell that only one of its hashes, and no hash of another key of the table, picks is reported
      ensures OwnersReported(s, old(table), result)
      // exactly the other keys are reported, and packets are conserved
      ensures Reported(known, old(table), old(pending), r0, table, pending, result)
      // the counts are exact if and only if no rejected key hashes to a cell that is peeled
      ensures RejectedOwe(known, old(table), old(pending)) ==>
                (ReportsExact(old(Now(r0)), Now(result)) <==> AllClean(s, known, old(table), cells))
      ensures passes <= |old(table)| + 1
    {
      result, passes, cells := r0, 0, [];
      var quiet := false;
      TrailFits(s, known, Now(r0), []);
      while !quiet
        invariant Valid() && Trail(s, known, old(Now(r0)), cells, Now(result))
        invariant quiet ==> IsCore(s, known, table)
        invariant passes <= |cells| + if quiet then 1 else 0
        invariant |table| + |cells| == |old(table)|
        decreases |table|, !quiet
      {
        ghost var done, st, more := cells, Now(result), [];
        result, quiet, more := Pass(result);
        TrailFits(s, known, st, more);
        TrailThen(s, known, old(Now(r0)), done, st, more, Now(result));
        cells, passes := done + more, passes + 1;
      }
      TrailFits(s, known, old(Now(r0)), cells);
      TrailReported(s, known, old(Now(r0)), cells);
      if RejectedOwe(known, old(table), old(pending)) { TrailExactIff(s, known, old(Now(r0)), cells); }
      CoreFixed(s, known, table);
      OwnersOutsideCore(s, known, old(table), result);
    }

    /** 0 only for keys that were never inserted; -1 means "maybe". */
    method ApproximateQuery(key: Key) returns (r: int)
      requires Valid()
      ensures r == if AllBitsSet(s, bf[..], key) then -1 else 0
      ensures r == if InFilter(s, bf[..], key) then -1 else 0
      ensures key in known ==> r == -1
    {
      InFilterHashes(s, bf[..], key);
      if key in known { KnownIsSeen(s, bf[..], known, key); }
      for i: nat := 0 to s.bfK
        invariant forall j: nat | j < i :: bf[..][s.Bit(j, key)]
      {
        if !bf[s.Bit(i, key)] { return 0; }
      }
      return -1;
    }
  }

  /** Every reported count is the number of packets in the stream. */
  ghost predicate AllExact(result: map<Key, int>, data: seq<Key>) {
    forall k | k in result :: result[k] == Count(data, k)
  }

  /** For the table of a stream, the reports are those of the keys that left the table, so they are exact together. */
  lemma StreamReports(s: Shape, data: seq<Key>, st: Contents, after: Left)
    requires s.Valid() && st == Building(s, Empty(s), data) && after.result.Keys == st.table - after.table
    ensures forall k | k in after.result :: k in data
    ensures ReportsExact(Left(st.table, st.pending, map[]), after) <==> AllExact(after.result, data)
  {
    BuildingCounts(s, data);
    BuildingTable(s, data);
    assert forall k | k in after.result :: after.result[k] == Get(after.result, k);
  }

  lemma NoErrorIsClean(s: Shape, data: seq<Key>, cells: seq<nat>)
    requires s.Valid() && GateNeverErred(s, data)
    ensures var st := Building(s, Empty(s), data); AllClean(s, st.known, st.table, cells)
  {
    BuildingCounts(s, data);
    BuildingTable(s, data);
  }

  /** The ground truth: packets per key. */
  ghost predicate CountsOf(flowCount: map<Key, int>, data: seq<Key>) {
    flowCount.Keys == Distinct(data) && forall k | k in flowCount :: flowCount[k] == Count(data, k)
  }

  /** Counts one packet. */
  method CountKey(flowCount0: map<Key, int>, ghost data: seq<Key>, key: Key) returns (flowCount: map<Key, int>)
    requires CountsOf(flowCount0, data)
    ensures CountsOf(flowCount, data + [key]) && |flowCount| == |Distinct(data + [key])|
  {
    flowCount := flowCount0[key := 1 + if key in flowCount0 then flowCount0[key] else 0];
    assert (data + [key])[..|data|] == data;
    assert flowCount.Keys == Distinct(data + [key]);
    NoneCounted(data, key);
  }

  lemma {:induction false} NoneCounted(data: seq<Key>, k: Key)
    ensures k !in data ==> Count(data, k) == 0
  {
    if data != [] { NoneCounted(data[..|data| - 1], k); }
  }

  lemma KeyNext(keys: seq<Key>, i: nat)
    requires i < |keys|
    ensures keys[..i + 1] == keys[..i] + [keys[i]]
  {
  }

  /** Table and counts are those of the first i keys, inserted behind st0. */
  ghost predicate Fed(t: InsertableIblt, st0: Contents, keys: seq<Key>, i: nat, flowCount: map<Key, int>)
    requires i <= |keys|
    reads t, t.bf, t.iblt
  {
    && t.Valid() && |st0.bits| == t.s.wBf
    && CountsOf(flowCount, keys[..i]) && t.Holds() == Building(t.s, st0, keys[..i])
  }

  /** Inserts one packet into a table, and counts it. */
  method InputOne(t: InsertableIblt, ghost st0: Contents, ghost keys: seq<Key>, ghost i: nat, key: Key,
                  flowCount0: map<Key, int>)
    returns (flowCount: map<Key, int>)
    requires i < |keys| && key == keys[i] && |key| == t.s.keyLen && Fed(t, st0, keys, i, flowCount0)
    modifies t, t.bf, t.iblt
    ensures t.bf == old(t.bf) && t.iblt == old(t.iblt)
    ensures Fed(t, st0, keys, i + 1, flowCount) && |flowCount| == |Distinct(keys[..i + 1])|
  {
    KeyNext(keys, i);
    t.InsertOne(key);
    BuildingNext(t.s, st0, keys, i);
    flowCount := CountKey(flowCount0, keys[..i], key);
  }

  /** Feeds keys into a table and counts them, until `maxFlowNum` flows were seen. */
  method Input(t: InsertableIblt, tuples: seq<Key>, maxFlowNum: nat) returns (packetCnt: nat, flowCount: map<Key, int>)
    requires t.Valid() && forall i | 0 <= i < |tuples| :: |tuples[i]| >= t.s.keyLen
    modifies t, t.bf, t.iblt
    ensures t.bf == old(t.bf) && t.iblt == old(t.iblt)
    ensures StopsAt(KeysOf(tuples, t.s.keyLen), maxFlowNum, packetCnt)
    ensures Fed(t, old(t.Holds()), KeysOf(tuples, t.s.keyLen), packetCnt, flowCount)
  {
    packetCnt, flowCount := 0, map[];
    ghost var st0, keys := t.Holds(), KeysOf(tuples, t.s.keyLen);
    for i := 0 to |tuples|
      invariant packetCnt == i && t.bf == old(t.bf) && t.iblt == old(t.iblt)
      invariant Fed(t, st0, keys, i, flowCount) && StopFrom(keys, maxFlowNum, i) == StopFrom(keys, maxFlowNum, 0)
    {
      var tmpKey := tuples[i][..t.s.keyLen];
      flowCount := InputOne(t, st0, keys, i, tmpKey, flowCount);
      packetCnt := packetCnt + 1;
      if |flowCount| >= maxFlowNum { break; }
    }
    StopFromStops(keys, maxFlowNum, 0);
  }

  /** The flows whose count was reported exactly. */
  ghost function Exact(flowCount: map<Key, int>, sum: map<Key, int>): set<Key> {
    set k | k in flowCount && k in sum && sum[k] == flowCount[k]
  }

  /** The counters while the flows in `left` are still to be scored. */
  ghost predicate Scored(found: set<Key>, exact: set<Key>, left: set<Key>, loadCnt: int, accCnt: int) {
    loadCnt == |found + left| && accCnt == |exact - left|
  }

  lemma ScoreFirst(all: set<Key>, found: set<Key>, exact: set<Key>)
    requires found <= all && exact <= all
    ensures Scored(found, exact, all, |all|, 0)
  {
    assert found + all == all && exact - all == {};
  }

  lemma ScoreNext(found: set<Key>, exact: set<Key>, left: set<Key>, loadCnt: int, accCnt: int, it: Key)
    requires it in left && Scored(found, exact, left, loadCnt, accCnt)
    ensures Scored(found, exact, left - {it}, loadCnt - (if it in found then 0 else 1), accCnt + if it in exact then 1
            else 0)
  {
    var rest := left - {it};
    if it in found {
      assert found + left == found + rest;
    } else {
      assert found + left == found + rest + {it};
    }
    if it in exact {
      assert exact - rest == exact - left + {it};
    } else {
      assert exact - rest == exact - left;
    }
  }

  lemma ScoreLast(found: set<Key>, exact: set<Key>, loadCnt: int, accCnt: int)
    requires Scored(found, exact, {}, loadCnt, accCnt)
    ensures loadCnt == |found| && accCnt == |exact|
  {
    assert found + {} == found && exact - {} == exact;
  }

  /** How many flows were reported, and how many with their exact count. */
  method Score(flowCount: map<Key, int>, sum: map<Key, int>) returns (loadCnt: int, accCnt: int)
    ensures loadCnt == |flowCount.Keys * sum.Keys| && accCnt == |Exact(flowCount, sum)|
  {
    loadCnt, accCnt := |flowCount|, 0;
    var left := flowCount.Keys;
    ghost var found, exact := flowCount.Keys * sum.Keys, Exact(flowCount, sum);
    ScoreFirst(flowCount.Keys, found, exact);
    while left != {}
      invariant left <= flowCount.Keys && Scored(found, exact, left, loadCnt, accCnt)
    {
      var it :| it in left;
      ScoreNext(found, exact, left, loadCnt, accCnt, it);
      if it !in sum {
        loadCnt := loadCnt - 1;
      } else if sum[it] == flowCount[it] {
        accCnt := accCnt + 1;
      }
      left := left - {it};
    }
    ScoreLast(found, exact, loadCnt, accCnt);
  }

  /** The reports are those of flows in the stream, so the scores are about all of them. */
  lemma ScoresOf(result: map<Key, int>, flowCount: map<Key, int>, data: seq<Key>)
    requires CountsOf(flowCount, data) && forall k | k in result :: k in data
    ensures |flowCount.Keys * result.Keys| == |result|
    ensures |Exact(flowCount, result)| == |result| <==> AllExact(result, data)
  {
    var exact := Exact(flowCount, result);
    assert flowCount.Keys * result.Keys == result.Keys;
    assert |result.Keys| == |result|;
    if AllExact(result, data) {
      assert exact == result.Keys;
    } else {
      var k :| k in result && result[k] != Count(data, k);
      SubsetSize(exact, result.Keys - {k});
    }
  }

  /** `sum` is what dumping the table of a stream reports, peeling `cells`. */
  ghost predicate IsDump(s: Shape, data: seq<Key>, sum: map<Key, int>, cells: seq<nat>)
    requires s.Valid()
  {
    var st := Building(s, Empty(s), data);
    && (forall k | k in sum :: k in data)
    && sum.Keys == st.table - Core(s, st.known, st.table)
    && OwnersReported(s, Entering(s, data), sum)
    && PeelsAll(s, st.known, Left(st.table, st.pending, map[]), cells)
    && sum == AfterPeels(s, st.known, Left(st.table, st.pending, map[]), cells).result
    && (AllExact(sum, data) <==> AllClean(s, st.known, st.table, cells))
    && (GateNeverErred(s, data) ==> AllExact(sum, data))
  }

  lemma DumpOfStream(s: Shape, data: seq<Key>, sum: map<Key, int>, cells: seq<nat>)
    requires s.Valid()
    requires var st := Building(s, Empty(s), data);
             var after := AfterPeels(s, st.known, Left(st.table, st.pending, map[]), cells);
             PeelsAll(s, st.known, Left(st.table, st.pending, map[]), cells) && sum == after.result
             && sum.Keys == st.table - after.table && after.table == Core(s, st.known, st.table)
             && OwnersReported(s, st.table, sum)
             && (ReportsExact(Left(st.table, st.pending, map[]), after) <==> AllClean(s, st.known, st.table, cells))
    ensures IsDump(s, data, sum, cells)
  {
    var st := Building(s, Empty(s), data);
    StreamReports(s, data, st, AfterPeels(s, st.known, Left(st.table, st.pending, map[]), cells));
    TableIsEntering(s, data);
    if GateNeverErred(s, data) { NoErrorIsClean(s, data, cells); }
  }

  /** The dump of a single packet reports it, with count 1, exactly if there is a filter hash at all and some table hash
      picks a cell that no other table hash of the key picks. */
  lemma OnePacketDump(s: Shape, key: Key, sum: map<Key, int>, cells: seq<nat>)
    requires s.Valid() && IsDump(s, [key], sum, cells)
    ensures sum == if s.bfK > 0 && HasSingleCell(s, key) then map[key := 1] else map[]
  {
    var st := Building(s, Empty(s), [key]);
    TableIsEntering(s, [key]);
    OneEnters(s, key);
    AloneStuck(s, key);
    assert [key][..0] == [];
    assert st.known == [key];
    if s.bfK > 0 && HasSingleCell(s, key) {
      StreamFilter(s, [], key);
      assert GateNeverErred(s, [key]);
      assert key in sum && Count([key], key) == 1;
    }
  }

  /** Dumps the table of a stream. */
  method DumpStream(t: InsertableIblt, ghost data: seq<Key>) returns (sum: map<Key, int>, ghost cells: seq<nat>)
    requires t.Valid() && t.Holds() == Building(t.s, Empty(t.s), data)
    modifies t`table, t`pending, t.iblt
    ensures IsDump(t.s, data, sum, cells)
  {
    StreamOwes(t.s, data);
    var passes;
    sum, passes, cells := t.Dump(map[]);
    DumpOfStream(t.s, data, sum, cells);
  }

  /** Measures a stream with a fresh table, up to the flow limit: every reported key was in the stream; the keys not
      reported are the one largest unpeelable set of admitted keys; and all that is reported scores as exact if and only
      if no key that the filter rejected hashes to a cell that the dump peels, hence if the filter never erred. */
  method Measure(s: Shape, tuples: seq<Key>, maxFlowNum: nat)
    returns (sum: map<Key, int>, loadCnt: int, accCnt: int, ghost n: nat, ghost cells: seq<nat>)
    requires s.Valid() && forall i | 0 <= i < |tuples| :: |tuples[i]| >= s.keyLen
    ensures StopsAt(KeysOf(tuples, s.keyLen), maxFlowNum, n)
    ensures IsDump(s, KeysOf(tuples, s.keyLen)[..n], sum, cells)
    ensures loadCnt == |sum| && (accCnt == loadCnt <==> AllExact(sum, KeysOf(tuples, s.keyLen)[..n]))
  {
    var t := new InsertableIblt(s);
    assert t.Holds() == Empty(s);
    var packetCnt, flowCount := Input(t, tuples, maxFlowNum);
    n := packetCnt;
    ghost var data := KeysOf(tuples, s.keyLen)[..n];
    sum, cells := DumpStream(t, data);
    loadCnt, accCnt := Score(flowCount, sum);
    ScoresOf(sum, flowCount, data);
  }
}
