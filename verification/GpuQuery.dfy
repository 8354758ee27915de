/** Reading the GPU table back: the four cells of a key's branch hold all there is of it, and never too much. */
module GpuQuery {
  import opened Bytes
  import opened Gpu
  import I = Items
  import A = AHeapSpec
  import opened GpuRuns

  function LayerOf(c: nat): (layer: nat)
    ensures layer < 4
  {
    if c < 16384 then 0 else if c < 24576 then 1 else if c < 28672 then 2 else 3
  }

  function Home(hash: nat -> nat, k: nat): (h: nat)
    ensures h < FIRST
  {
    hash(k) % FIRST
  }

  predicate OnBranch(hash: nat -> nat, cell: Cell, c: nat) {
    cell.freq != 0 ==> Pos(Home(hash, cell.key), LayerOf(c)) == c
  }

  ghost predicate OnBranches(hash: nat -> nat, table: Table) {
    forall c | 0 <= c < CELLS :: OnBranch(hash, table[c], c)
  }

  function Weight(cell: Cell, k: nat): nat {
    if cell.key == k then cell.freq else 0
  }

  /** The first n cells' counts for key k. */
  function Scan(table: seq<Cell>, k: nat): nat {
    if table == [] then 0 else Scan(table[..|table| - 1], k) + Weight(table[|table| - 1], k)
  }

  lemma {:induction false} ScanUpdate(table: seq<Cell>, i: nat, cell: Cell, k: nat)
    requires i < |table|
    ensures Scan(table[i := cell], k) + Weight(table[i], k) == Scan(table, k) + Weight(cell, k)
  {
    var n := |table| - 1;
    if i == n {
      assert table[i := cell][..n] == table[..n];
    } else {
      ScanUpdate(table[..n], i, cell, k);
      assert table[i := cell][..n] == table[..n][i := cell];
    }
  }

  lemma {:induction false} ScanNone(table: seq<Cell>, k: nat)
    requires forall i | 0 <= i < |table| :: Weight(table[i], k) == 0
    ensures Scan(table, k) == 0
  {
    if table != [] { ScanNone(table[..|table| - 1], k); }
  }

  lemma PosLayer(h: nat, layer: nat)
    requires h < FIRST && layer < 4
    ensures LayerOf(Pos(h, layer)) == layer
  {
  }

  lemma SameAbove(g: nat, h: nat, layer: nat)
    requires g < FIRST && h < FIRST && layer < 3 && Pos(g, layer) == Pos(h, layer)
    ensures Pos(g, layer + 1) == Pos(h, layer + 1)
  {
  }

  /** An insertion keeps every item on its branch. */
  lemma {:induction false} InsertKeepsBranches(hash: nat -> nat, table: Table, home: nat, layer: nat, key: nat,
                                               freq: nat, ts: nat)
    requires home < FIRST && layer <= 3 && OnBranches(hash, table) && Pos(Home(hash, key), layer) == Pos(home, layer)
    ensures OnBranches(hash, InsertAlone(table, home, layer, key, freq, ts))
    decreases 3 - layer
  {
    if layer < 3 {
      var p := Pos(home, layer);
      var c := table[p];
      PosLayer(home, layer);
      assert OnBranch(hash, c, p);
      assert OnBranch(hash, Cell(key, ts, freq), p)
             && OnBranch(hash, Cell(key, Newest(c.ts, ts), I.Add32(c.freq, freq)), p);
      if c.freq != 0 && c.key != key {
        SameAbove(Home(hash, key), home, layer);
        if layer == 2 && freq > c.freq {
          SameAbove(Home(hash, c.key), home, layer);
          InsertKeepsBranches(hash, table[p := Cell(key, ts, freq)], home, layer + 1, c.key, c.freq, c.ts);
        } else if layer == 2 || !Takes(c, ts) {
          InsertKeepsBranches(hash, table, home, layer + 1, key, freq, ts);
        }
      }
    }
  }

  /** An insertion adds at most its own counter, even where counters wrap. */
  lemma {:induction false} InsertNoGain(table: Table, home: nat, layer: nat, key: nat, freq: nat, ts: nat, k: nat)
    requires home < FIRST && layer <= 3
    ensures Scan(InsertAlone(table, home, layer, key, freq, ts), k) <= Scan(table, k) + if key == k then freq else 0
    decreases 3 - layer
  {
    if layer < 3 {
      var p := Pos(home, layer);
      var c := table[p];
      ScanUpdate(table, p, Cell(key, ts, freq), k);
      ScanUpdate(table, p, Cell(key, Newest(c.ts, ts), I.Add32(c.freq, freq)), k);
      if c.freq != 0 && c.key != key {
        if layer == 2 && freq > c.freq {
          InsertNoGain(table[p := Cell(key, ts, freq)], home, layer + 1, c.key, c.freq, c.ts, k);
        } else if layer == 2 || !Takes(c, ts) {
          InsertNoGain(table, home, layer + 1, key, freq, ts, k);
        }
      }
    }
  }

  ghost predicate Keyed(hash: nat -> nat, jobs: seq<Thread>) {
    forall i | 0 <= i < |jobs| :: jobs[i].home == Home(hash, jobs[i].key)
  }

  /** The counters of the logged insertions of key k. */
  function Inserted(jobs: seq<Thread>, log: seq<nat>, k: nat): nat
    requires forall j | 0 <= j < |log| :: log[j] < |jobs|
  {
    if log == [] then 0
    else
      var t := jobs[log[|log| - 1]];
      Inserted(jobs, log[..|log| - 1], k) + if t.key == k then t.freq else 0
  }

  /** The table of any sequence of insertions into an empty table. */
  lemma {:induction false} SequentialCounts(hash: nat -> nat, table: Table, jobs: seq<Thread>, log: seq<nat>, k: nat)
    requires AllSound(jobs) && Keyed(hash, jobs) && (forall j | 0 <= j < |log| :: log[j] < |jobs|)
    requires forall c | 0 <= c < CELLS :: table[c].freq == 0
    ensures OnBranches(hash, Sequential(table, jobs, log))
    ensures Scan(Sequential(table, jobs, log), k) <= Inserted(jobs, log, k)
  {
    if log == [] {
      ScanNone(table, k);
    } else {
      var rest, t := log[..|log| - 1], jobs[log[|log| - 1]];
      SequentialCounts(hash, table, jobs, rest, k);
      InsertKeepsBranches(hash, Sequential(table, jobs, rest), t.home, 0, t.key, t.freq, t.ts);
      InsertNoGain(Sequential(table, jobs, rest), t.home, 0, t.key, t.freq, t.ts, k);
    }
  }

  /** What the four cells of a branch hold for key k, up to a layer. */
  function BranchCount(table: Table, home: nat, k: nat, layers: nat): nat
    requires home < FIRST && layers <= 4
  {
    if layers == 0 then 0 else BranchCount(table, home, k, layers - 1) + Weight(table[Pos(home, layers - 1)], k)
  }

  lemma BranchCountIsSum(table: Table, h: nat, k: nat)
    requires h < FIRST
    ensures BranchCount(table, h, k, 4)
         == Weight(table[Pos(h, 0)], k) + Weight(table[Pos(h, 1)], k) + Weight(table[Pos(h, 2)], k)
           + Weight(table[Pos(h, 3)], k)
  {
    assert BranchCount(table, h, k, 1) == BranchCount(table, h, k, 0) + Weight(table[Pos(h, 0)], k);
    assert BranchCount(table, h, k, 2) == BranchCount(table, h, k, 1) + Weight(table[Pos(h, 1)], k);
    assert BranchCount(table, h, k, 3) == BranchCount(table, h, k, 2) + Weight(table[Pos(h, 2)], k);
  }

  lemma OffBranchIsOther(hash: nat -> nat, cell: Cell, c: nat, k: nat)
    requires OnBranch(hash, cell, c) && c != Pos(Home(hash, k), LayerOf(c))
    ensures Weight(cell, k) == 0
  {
  }

  /** The branch of a key holds all there is of it. */
  lemma BranchIsScan(hash: nat -> nat, table: Table, k: nat)
    requires OnBranches(hash, table)
    ensures BranchCount(table, Home(hash, k), k, 4) == Scan(table, k)
  {
    var h, none := Home(hash, k), Cell(0, 0, 0);
    PosLayer(h, 0); PosLayer(h, 1); PosLayer(h, 2); PosLayer(h, 3);
    var p0, p1, p2, p3 := Pos(h, 0), Pos(h, 1), Pos(h, 2), Pos(h, 3);
    var t0 := table[p0 := none];
    var t1 := t0[p1 := none];
    var t2 := t1[p2 := none];
    var t3 := t2[p3 := none];
    ScanUpdate(table, p0, none, k);
    ScanUpdate(t0, p1, none, k);
    ScanUpdate(t1, p2, none, k);
    ScanUpdate(t2, p3, none, k);
    forall c | 0 <= c < |t3| ensures Weight(t3[c], k) == 0 {
      if c != p0 && c != p1 && c != p2 && c != p3 {
        assert OnBranch(hash, table[c], c);
        OffBranchIsOther(hash, table[c], c, k);
      }
    }
    ScanNone(t3, k);
    BranchCountIsSum(table, h, k);
  }

  /** The count of one key, read from its branch in 32-bit words. */
  method QueryKey(hash: nat -> nat, buckets: array<Cell>, key: nat) returns (sum: nat)
    requires buckets.Length == CELLS
    ensures sum == BranchCount(buckets[..], Home(hash, key), key, 4) % 0x1_0000_0000
  {
    var hashPos := hash(key) % FIRST;
    var layerStartPos, layerBucketNum := 0, FIRST;
    ghost var h := hashPos;
    sum := 0;
    for j := 0 to 4
      invariant j < 4 ==> layerStartPos == LayerStart(j) && hashPos == A.Up(h, j)
      invariant layerBucketNum == if j == 0 then 16384 else if j == 1 then 8192 else if j == 2 then 4096 else if j == 3
                then 2048 else 1024
      invariant sum == BranchCount(buckets[..], h, key, j) % 0x1_0000_0000
    {
      ghost var p := Pos(h, j);
      assert layerStartPos + hashPos == p;
      if buckets[layerStartPos + hashPos].key == key {
        sum := I.Add32(sum, buckets[layerStartPos + hashPos].freq);
      }
      hashPos := hashPos / 2;
      layerStartPos := layerStartPos + layerBucketNum;
      layerBucketNum := layerBucketNum / 2;
    }
  }

  method Query(hash: nat -> nat, buckets: array<Cell>, keys: seq<nat>) returns (res: seq<nat>)
    requires buckets.Length == CELLS
    ensures |res| == |keys|
    ensures forall i | 0 <= i < |keys| ::
              res[i] == BranchCount(buckets[..], Home(hash, keys[i]), keys[i], 4) % 0x1_0000_0000
  {
    res := [];
    for i := 0 to |keys|
      invariant |res| == i
      invariant forall x | 0 <= x < i ::
                  res[x] == BranchCount(buckets[..], Home(hash, keys[x]), keys[x], 4) % 0x1_0000_0000
    {
      var sum := QueryKey(hash, buckets, keys[i]);
      res := res + [sum];
    }
  }

  /** After any finished concurrent run on an empty table, a branch query of a key equals a scan of the whole table, and
      is at most what was inserted for the key by the threads that got their lock. */
  lemma QueryAfterRun(hash: nat -> nat, st0: System, jobs: seq<Thread>, schedule: seq<nat>, k: nat)
    returns (log: seq<nat>)
    requires Fresh(st0, jobs) && Keyed(hash, jobs) && forall j | 0 <= j < |schedule| :: schedule[j] < |jobs|
    requires forall c | 0 <= c < CELLS :: st0.table[c].freq == 0
    requires forall i | 0 <= i < |jobs| :: !InCs(Interleave(st0, schedule).threads[i])
    ensures forall j | 0 <= j < |log| :: log[j] < |jobs| && Interleave(st0, schedule).threads[log[j]].pc == Done
    ensures NoDup(log)
    ensures var table := Interleave(st0, schedule).table;
            BranchCount(table, Home(hash, k), k, 4) == Scan(table, k) <= Inserted(jobs, log, k)
  {
    log := Serializable(st0, jobs, schedule);
    SequentialCounts(hash, st0.table, jobs, log, k);
    BranchIsScan(hash, Interleave(st0, schedule).table, k);
    assert forall j | 0 <= j < |log| :: log[j] in log;
  }

  // ----- kernel launches

  /** The threads of a launch that carry key k and got their lock. */
  ghost function Counted(st: System, keys: seq<nat>, k: nat): set<nat>
    requires |st.threads| == |keys|
  {
    set id: nat | id < |keys| && keys[id] == k && st.threads[id].pc == Done
  }

  /** All that carry key k. */
  ghost function Carriers(keys: seq<nat>, k: nat): set<nat> {
    set id: nat | id < |keys| && keys[id] == k
  }

  /** The logged threads that carry key k. */
  ghost function LoggedWith(jobs: seq<Thread>, log: seq<nat>, k: nat): set<nat> {
    set id: nat | id in log && id < |jobs| && jobs[id].key == k
  }

  lemma LoggedWithNext(jobs: seq<Thread>, log: seq<nat>, id: nat, k: nat)
    requires id < |jobs| && id !in log
    ensures |LoggedWith(jobs, log + [id], k)| == |LoggedWith(jobs, log, k)| + if jobs[id].key == k then 1 else 0
  {
    assert LoggedWith(jobs, log + [id], k) == LoggedWith(jobs, log, k) + if jobs[id].key == k then {id} else {};
  }

  ghost predicate AllSingle(jobs: seq<Thread>) {
    forall i | 0 <= i < |jobs| :: jobs[i].freq == 1
  }

  lemma {:induction false} InsertedIsCount(jobs: seq<Thread>, log: seq<nat>, k: nat)
    requires NoDup(log) && (forall j | 0 <= j < |log| :: log[j] < |jobs|) && AllSingle(jobs)
    ensures Inserted(jobs, log, k) == |LoggedWith(jobs, log, k)|
  {
    if log == [] {
      assert LoggedWith(jobs, log, k) == {};
    } else {
      var n := |log| - 1;
      InsertedIsCount(jobs, log[..n], k);
      LoggedWithNext(jobs, log[..n], log[n], k);
      assert log == log[..n] + [log[n]];
    }
  }

  /** After a launch on an empty table that serves every thread long enough, the count queried for a key is at most the
      number of its packets whose threads got their lock, and so at most the number of its packets. */
  lemma QueryAfterLaunch(hash: nat -> nat, st0: System, keys: seq<nat>, start: nat, schedule: seq<nat>, k: nat)
    requires st0.threads == Launch(hash, keys, start) && forall lock: nat | lock < LOCKS :: st0.mutex[lock] == 0
    requires forall c | 0 <= c < CELLS :: st0.table[c].freq == 0
    requires forall j | 0 <= j < |schedule| :: schedule[j] < |keys|
    requires forall i: nat | i < |keys| :: Turns(schedule, i) >= TRIES + 49
    ensures Fresh(st0, st0.threads)
    ensures var st := Interleave(st0, schedule);
            BranchCount(st.table, Home(hash, k), k, 4)
              == Scan(st.table, k) <= |Counted(st, keys, k)| <= |Carriers(keys, k)|
  {
    LaunchIsFresh(hash, st0, keys, start);
    var jobs, st := st0.threads, Interleave(st0, schedule);
    forall i: nat | i < |jobs| ensures !InCs(st.threads[i]) { ServedFinish(st0, jobs, schedule, i); }
    var log := QueryAfterRun(hash, st0, jobs, schedule, k);
    InsertedIsCount(jobs, log, k);
    var logged := LoggedWith(jobs, log, k);
    forall id | id in logged ensures id in Counted(st, keys, k) {
      var j :| 0 <= j < |log| && log[j] == id;
    }
    SubsetSize(logged, Counted(st, keys, k));
    SubsetSize(Counted(st, keys, k), Carriers(keys, k));
  }
}
