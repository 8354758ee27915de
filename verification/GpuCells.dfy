/** What a GPU insertion does to each cell on its way, in counts and times; and the counts that no thread can spoil. */
module GpuCells {
  import opened Bytes
  import opened Gpu
  import opened GpuRuns
  import opened GpuQuery

  /** The cell of a home in layer 0, 1, 2 or 3. */
  ghost function CellAt(home: nat, layer: nat): nat {
    if layer == 0 then home else if layer == 1 then 16384 + home / 2 else if layer == 2 then 24576 + home / 4
    else 28672 + home / 8
  }

  /** No other cell changed. */
  ghost predicate OnlyAt(before: Table, after: Table, p: nat)
    requires p < CELLS
  {
    after == before[p := after[p]]
  }

  // ----- one cell

  lemma PosIsCellAt(home: nat, layer: nat)
    requires home < FIRST && layer < 4
    ensures Pos(home, layer) == CellAt(home, layer) < CELLS
  {
  }

  /** An empty cell takes the item, and the insertion ends. */
  lemma EmptyTakes(table: Table, home: nat, layer: nat, key: nat, freq: nat, ts: nat)
    requires home < FIRST && layer < 3
    ensures var p := CellAt(home, layer);
            p < CELLS
            && (table[p].freq == 0 ==>
                  InsertAlone(table, home, layer, key, freq, ts) == table[p := Cell(key, ts, freq)])
  {
    PosIsCellAt(home, layer);
  }

  /** A cell of the same key keeps the later time and adds the counter, cut to 32 bits; the insertion ends. */
  lemma SameKeyMerges(table: Table, home: nat, layer: nat, key: nat, freq: nat, ts: nat)
    requires home < FIRST && layer < 3
    requires var p := CellAt(home, layer); p < CELLS && table[p].freq != 0 && table[p].key == key
    ensures var p, after := CellAt(home, layer), InsertAlone(table, home, layer, key, freq, ts);
            OnlyAt(table, after, p) && after[p].key == key && after[p].freq == (table[p].freq + freq) % 0x1_0000_0000
            && after[p].ts >= ts && after[p].ts >= table[p].ts && (after[p].ts == ts || after[p].ts == table[p].ts)
  {
    PosIsCellAt(home, layer);
  }

  /** In a d-left layer a resident of another key gives way exactly to an item that is not older, if it has a single
      packet or was silent for more than 10000 ticks; a resident that stays is untouched, and the item goes on. */
  lemma ResidentLeaves(table: Table, home: nat, layer: nat, key: nat, freq: nat, ts: nat)
    requires home < FIRST && layer < 2
    requires var p := CellAt(home, layer); p < CELLS && table[p].freq != 0 && table[p].key != key
    ensures var p, after := CellAt(home, layer), InsertAlone(table, home, layer, key, freq, ts);
            var c := table[p];
            if c.ts <= ts && (c.freq == 1 || (c.ts + 10000) % 0x1_0000_0000 < ts)
            then after == table[p := Cell(key, ts, freq)]
            else after[p] == c && after == InsertAlone(table, home, layer + 1, key, freq, ts)
  {
    PosIsCellAt(home, layer);
    InsertBelow(table, home, layer + 1, key, freq, ts, Pos(home, layer));
  }

  /** In the winner layer a resident of another key gives way exactly to a heavier item, and is dropped; else the item
      is dropped. */
  lemma HeavierWins(table: Table, home: nat, key: nat, freq: nat, ts: nat)
    requires home < FIRST
    requires var p := CellAt(home, 2); p < CELLS && table[p].freq != 0 && table[p].key != key
    ensures var p := CellAt(home, 2);
            InsertAlone(table, home, 2, key, freq, ts)
              == if freq > table[p].freq then table[p := Cell(key, ts, freq)] else table
  {
    PosIsCellAt(home, 2);
  }

  /** An insertion from a layer on leaves the cells below that layer alone. */
  lemma {:induction false} InsertBelow(table: Table, home: nat, layer: nat, key: nat, freq: nat, ts: nat, c: nat)
    requires home < FIRST && layer <= 3 && c < LayerStart(layer)
    ensures InsertAlone(table, home, layer, key, freq, ts)[c] == table[c]
    decreases 3 - layer
  {
    if 0 < layer < 2 {
      InsertBelow(table, home, layer + 1, key, freq, ts, c);
    }
  }

  // ----- the whole insertion

  /** A d-left cell that neither takes nor merges an item of this key and time. */
  ghost predicate Holds(c: Cell, key: nat, ts: nat) {
    c.freq != 0 && c.key != key && !(c.ts <= ts && (c.freq == 1 || (c.ts + 10000) % 0x1_0000_0000 < ts))
  }

  /** A d-left cell either holds, untouched, and the item goes on; or it ends up with the inserted key, and is all that
      changes. */
  lemma DLeftCell(table: Table, home: nat, layer: nat, key: nat, freq: nat, ts: nat)
    requires home < FIRST && layer < 2
    ensures CellAt(home, layer) < CELLS
    ensures var p, after := CellAt(home, layer), InsertAlone(table, home, layer, key, freq, ts);
            if Holds(table[p], key, ts)
            then after[p] == table[p] && after == InsertAlone(table, home, layer + 1, key, freq, ts)
            else after[p].key == key && OnlyAt(table, after, p)
  {
    PosIsCellAt(home, layer);
    var c := table[CellAt(home, layer)];
    if c.freq == 0 {
      EmptyTakes(table, home, layer, key, freq, ts);
    } else if c.key == key {
      SameKeyMerges(table, home, layer, key, freq, ts);
    } else {
      ResidentLeaves(table, home, layer, key, freq, ts);
    }
  }

  /** A cell with this key, or with another that is newer, or that has a counter other than 1 and was there in the last
      10000 ticks. */
  ghost predicate Prevails(c: Cell, key: nat, ts: nat) {
    c.key == key || c.ts > ts || (c.freq != 1 && (c.ts + 10000) % 0x1_0000_0000 >= ts)
  }

  /** After an insertion the d-left cell it comes to first holds the inserted key, or, untouched, a resident of another
      key that prevails over it. */
  lemma FirstCell(table: Table, home: nat, layer: nat, key: nat, freq: nat, ts: nat)
    requires home < FIRST && layer < 2
    ensures CellAt(home, layer) < CELLS
    ensures var c := InsertAlone(table, home, layer, key, freq, ts)[CellAt(home, layer)];
            Prevails(c, key, ts) && (c.key != key ==> c == table[CellAt(home, layer)])
  {
    DLeftCell(table, home, layer, key, freq, ts);
  }

  /** Where an insertion ends: it changes one cell, the first on its way that does not hold against it, and that cell
      then holds the key; or no cell at all, exactly if both d-left cells hold and the winner cell has another key that
      is at least as heavy. */
  lemma WholeInsertion(table: Table, home: nat, key: nat, freq: nat, ts: nat)
    requires home < FIRST
    ensures CellAt(home, 1) < CELLS && CellAt(home, 2) < CELLS
    ensures var after := InsertAlone(table, home, 0, key, freq, ts);
            var p1, p2 := CellAt(home, 1), CellAt(home, 2);
            if !Holds(table[home], key, ts) then OnlyAt(table, after, home) && after[home].key == key
            else if !Holds(table[p1], key, ts) then OnlyAt(table, after, p1) && after[p1].key == key
            else if table[p2].freq == 0 || table[p2].key == key || freq > table[p2].freq
            then OnlyAt(table, after, p2) && after[p2].key == key
            else after == table
  {
    DLeftCell(table, home, 0, key, freq, ts);
    DLeftCell(table, home, 1, key, freq, ts);
    PosIsCellAt(home, 2);
    EndInWinner(table, home, key, freq, ts);
  }

  lemma EndInWinner(table: Table, home: nat, key: nat, freq: nat, ts: nat)
    requires home < FIRST && CellAt(home, 2) < CELLS
    ensures var p, after := CellAt(home, 2), InsertAlone(table, home, 2, key, freq, ts);
            if table[p].freq == 0 || table[p].key == key || freq > table[p].freq
            then OnlyAt(table, after, p) && after[p].key == key
            else after == table
  {
    var c := table[CellAt(home, 2)];
    if c.freq == 0 {
      EmptyTakes(table, home, 2, key, freq, ts);
    } else if c.key == key {
      SameKeyMerges(table, home, 2, key, freq, ts);
    } else {
      HeavierWins(table, home, key, freq, ts);
    }
  }

  lemma LastOfLog(table: Table, jobs: seq<Thread>, log: seq<nat>)
    requires AllSound(jobs) && log != [] && forall j | 0 <= j < |log| :: log[j] < |jobs|
    ensures var t := jobs[log[|log| - 1]]; Prevails(Sequential(table, jobs, log)[t.home], t.key, t.ts)
  {
    var n := |log| - 1;
    var t, before := jobs[log[n]], Sequential(table, jobs, log[..n]);
    FirstCell(before, t.home, 0, t.key, t.freq, t.ts);
  }

  /** After a finished run in which some thread got its lock, one that did, the last in the order the run amounts to,
      finds its key in the level-0 cell of its home, or another key there that prevails over it. */
  lemma LastServed(st0: System, jobs: seq<Thread>, schedule: seq<nat>, i: nat) returns (last: nat)
    requires Fresh(st0, jobs) && forall j | 0 <= j < |schedule| :: schedule[j] < |jobs|
    requires forall j | 0 <= j < |jobs| :: !InCs(Interleave(st0, schedule).threads[j])
    requires i < |jobs| && Interleave(st0, schedule).threads[i].pc == Done
    ensures last < |jobs| && Interleave(st0, schedule).threads[last].pc == Done
    ensures Prevails(Interleave(st0, schedule).table[jobs[last].home], jobs[last].key, jobs[last].ts)
  {
    var log := Serializable(st0, jobs, schedule);
    assert i in log;
    last := log[|log| - 1];
    assert last in log;
    LastOfLog(st0.table, jobs, log);
  }

  // ----- counts that no thread can spoil

  /** Key k shares its level-0 cell with no other key of the jobs, and every job is one packet. */
  ghost predicate HasOwnHome(hash: nat -> nat, jobs: seq<Thread>, k: nat) {
    forall i | 0 <= i < |jobs| ::
      jobs[i].freq == 1 && jobs[i].home == hash(jobs[i].key) % 16384
      && (jobs[i].key != k ==> hash(jobs[i].key) % 16384 != hash(k) % 16384)
  }

  /** Cell `home` has n packets of key k, cut to 32 bits, and nothing else; no other cell has any of them. */
  ghost predicate OnlyAtHome(table: Table, home: nat, k: nat, n: nat)
    requires home < FIRST
  {
    table[home].freq == n % 0x1_0000_0000 && (table[home].freq != 0 ==> table[home].key == k)
    && forall c | 0 <= c < CELLS && c != home :: Weight(table[c], k) == 0
  }

  lemma OnlyAtHomeScan(table: Table, home: nat, k: nat, n: nat)
    requires home < FIRST && OnlyAtHome(table, home, k, n)
    ensures Scan(table, k) == n % 0x1_0000_0000
  {
    var cleared := table[home := Cell(0, 0, 0)];
    ScanUpdate(table, home, Cell(0, 0, 0), k);
    ScanNone(cleared, k);
  }

  /** One more packet of k merges in its cell, or starts there. */
  lemma CellGains(table: Table, home: nat, layer: nat, k: nat, ts: nat)
    requires home < FIRST && layer < 3
    requires var p := CellAt(home, layer); p < CELLS && (table[p].freq != 0 ==> table[p].key == k)
    ensures var p, after := CellAt(home, layer), InsertAlone(table, home, layer, k, 1, ts);
            OnlyAt(table, after, p) && after[p].key == k && after[p].freq == (table[p].freq + 1) % 0x1_0000_0000
  {
    EmptyTakes(table, home, layer, k, 1, ts);
    if table[CellAt(home, layer)].freq != 0 { SameKeyMerges(table, home, layer, k, 1, ts); }
  }

  lemma HomeGains(table: Table, after: Table, home: nat, k: nat, n: nat)
    requires home < FIRST && OnlyAtHome(table, home, k, n) && OnlyAt(table, after, home) && after[home].key == k
    requires after[home].freq == (table[home].freq + 1) % 0x1_0000_0000
    ensures OnlyAtHome(after, home, k, n + 1)
  {
  }

  lemma OwnInsert(table: Table, home: nat, k: nat, n: nat, ts: nat)
    requires home < FIRST && OnlyAtHome(table, home, k, n)
    ensures OnlyAtHome(InsertAlone(table, home, 0, k, 1, ts), home, k, n + 1)
  {
    CellGains(table, home, 0, k, ts);
    HomeGains(table, InsertAlone(table, home, 0, k, 1, ts), home, k, n);
  }

  /** A packet of a key with another home goes somewhere else. */
  lemma OtherInsert(table: Table, home: nat, k: nat, n: nat, home': nat, key: nat, ts: nat)
    requires home < FIRST && home' < FIRST && home' != home && key != k && OnlyAtHome(table, home, k, n)
    ensures OnlyAtHome(InsertAlone(table, home', 0, key, 1, ts), home, k, n)
  {
    WholeInsertion(table, home', key, 1, ts);
  }

  /** In any order of insertions into an empty table, a key with its own home is counted exactly. */
  lemma {:induction false} OwnHomeExact(hash: nat -> nat, table: Table, jobs: seq<Thread>, log: seq<nat>, k: nat)
    requires AllSound(jobs) && HasOwnHome(hash, jobs, k) && NoDup(log)
    requires (forall j | 0 <= j < |log| :: log[j] < |jobs|) && forall c | 0 <= c < CELLS :: table[c].freq == 0
    ensures OnlyAtHome(Sequential(table, jobs, log), hash(k) % 16384, k, |LoggedWith(jobs, log, k)|)
    decreases |log|
  {
    if log == [] {
      assert LoggedWith(jobs, log, k) == {};
    } else {
      var n, home := |log| - 1, hash(k) % 16384;
      var id, before := log[n], Sequential(table, jobs, log[..n]);
      OwnHomeExact(hash, table, jobs, log[..n], k);
      LoggedWithNext(jobs, log[..n], id, k);
      assert log == log[..n] + [id];
      if jobs[id].key == k {
        OwnInsert(before, home, k, |LoggedWith(jobs, log[..n], k)|, jobs[id].ts);
      } else {
        OtherInsert(before, home, k, |LoggedWith(jobs, log[..n], k)|, jobs[id].home, jobs[id].key, jobs[id].ts);
      }
    }
  }

  lemma OwnHomeQuery(hash: nat -> nat, table: Table, jobs: seq<Thread>, log: seq<nat>, k: nat)
    requires AllSound(jobs) && HasOwnHome(hash, jobs, k) && NoDup(log)
    requires (forall j | 0 <= j < |log| :: log[j] < |jobs|) && forall c | 0 <= c < CELLS :: table[c].freq == 0
    ensures BranchCount(Sequential(table, jobs, log), hash(k) % 16384, k, 4)
         == |LoggedWith(jobs, log, k)| % 0x1_0000_0000
  {
    OwnHomeExact(hash, table, jobs, log, k);
    SequentialCounts(hash, table, jobs, log, k);
    BranchIsScan(hash, Sequential(table, jobs, log), k);
    OnlyAtHomeScan(Sequential(table, jobs, log), hash(k) % 16384, k, |LoggedWith(jobs, log, k)|);
  }

  lemma LoggedIsCounted(st: System, jobs: seq<Thread>, keys: seq<nat>, log: seq<nat>, k: nat)
    requires |st.threads| == |jobs| == |keys| && forall id | 0 <= id < |jobs| :: jobs[id].key == keys[id]
    requires forall id: nat | id < |jobs| :: id in log <==> st.threads[id].pc == Done
    ensures LoggedWith(jobs, log, k) == Counted(st, keys, k)
  {
  }

  /** No packet is lost to concurrency: after a launch on an empty table that serves every thread long enough, the query
      of a key whose level-0 cell no other key of the launch shares gives exactly the number of its threads that got
      their lock, cut to 32 bits. */
  lemma LaunchExact(hash: nat -> nat, st0: System, keys: seq<nat>, start: nat, schedule: seq<nat>, k: nat)
    requires st0.threads == Launch(hash, keys, start) && forall lock: nat | lock < LOCKS :: st0.mutex[lock] == 0
    requires forall c | 0 <= c < CELLS :: st0.table[c].freq == 0
    requires forall j | 0 <= j < |schedule| :: schedule[j] < |keys|
    requires forall i: nat | i < |keys| :: Turns(schedule, i) >= TRIES + 49
    requires forall i | 0 <= i < |keys| && keys[i] != k :: hash(keys[i]) % 16384 != hash(k) % 16384
    ensures Fresh(st0, st0.threads)
    ensures var st := Interleave(st0, schedule);
            BranchCount(st.table, hash(k) % 16384, k, 4) == |Counted(st, keys, k)| % 0x1_0000_0000
  {
    LaunchIsFresh(hash, st0, keys, start);
    var jobs, st := st0.threads, Interleave(st0, schedule);
    var log := SerializableIfServed(st0, jobs, schedule);
    OwnHomeQuery(hash, st0.table, jobs, log, k);
    LoggedIsCounted(st, jobs, keys, log, k);
  }
}
