/** The concurrent insertion of the GPU version: threads that take a spin lock on a subtree, with a bounded number of
    tries, and then read and write the words of its cells one at a time. Every interleaving amounts to some order of the
    insertions that got their lock. */
module Gpu {
  import A = AHeapSpec
  import I = Items

  const FIRST := 16384
  const CELLS := 30720
  const LOCKS := 2048
  const TRIES := 40

  /** One word of each of the three arrays. */
  datatype Cell = Cell(key: nat, ts: nat, freq: nat)

  type Table = t: seq<Cell> | |t| == CELLS witness seq(CELLS, _ => Cell(0, 0, 0))

  // ----- layout

  function LayerStart(layer: nat): nat {
    if layer == 0 then 0 else if layer == 1 then 16384 else if layer == 2 then 24576 else 28672
  }

  function Pos(home: nat, layer: nat): (c: nat)
    requires home < FIRST && layer < 4
    ensures c < CELLS
  {
    LayerStart(layer) + A.Up(home, layer)
  }

  /** The lock of a key's subtree. */
  function LockOf(home: nat): (l: nat)
    requires home < FIRST
    ensures l < LOCKS
  {
    home / 8
  }

  /** The lock that guards a cell. */
  function Owner(c: nat): nat {
    if c < 16384 then c / 8 else if c < 24576 then (c - 16384) / 4 else if c < 28672 then (c - 24576) / 2 else c - 28672
  }

  /** A thread touches only cells its own lock guards, at every layer. */
  lemma OwnCells(home: nat, layer: nat)
    requires home < FIRST && layer < 4
    ensures Owner(Pos(home, layer)) == LockOf(home)
  {
  }

  /** The source declares 512 lock words; that is enough exactly for the first quarter of the level-0 cells. */
  lemma DeclaredLocks(home: nat)
    requires home < FIRST
    ensures LockOf(home) < 512 <==> home < 4096
  {
  }

  // ----- one insertion, alone

  function Newest(a: nat, b: nat): nat {
    if a < b then b else a
  }

  /** Whether the incoming item takes a d-left cell of another key. */
  predicate Takes(c: Cell, ts: nat) {
    ts == Newest(c.ts, ts) && (c.freq == 1 || I.Add32(c.ts, 10000) < ts)
  }

  /** What an insertion does to the table, from a layer on: two d-left layers, then one winner layer. */
  function InsertAlone(table: Table, home: nat, layer: nat, key: nat, freq: nat, ts: nat): Table
    requires home < FIRST && layer <= 3
    decreases 3 - layer
  {
    if layer == 3 then table
    else
      var c := table[Pos(home, layer)];
      if c.freq == 0 then table[Pos(home, layer) := Cell(key, ts, freq)]
      else if c.key == key then table[Pos(home, layer) := Cell(key, Newest(c.ts, ts), I.Add32(c.freq, freq))]
      else if layer < 2 then
        if Takes(c, ts) then table[Pos(home, layer) := Cell(key, ts, freq)]
        else InsertAlone(table, home, layer + 1, key, freq, ts)
      else if freq > c.freq
        then InsertAlone(table[Pos(home, layer) := Cell(key, ts, freq)], home, layer + 1, c.key, c.freq, c.ts)
      else InsertAlone(table, home, layer + 1, key, freq, ts)
  }

  // ----- the same, word by word

  /** Where a thread is: each point is one access to global memory. */
  datatype Pc =
    | Try
    | ReadFreq | ReadKey
    | MergeReadTs | MergeWriteTs | MergeReadFreq | MergeWriteFreq
    | ProbeTs | ProbeFreq | ProbeKey
    | PutTs | PutKey | PutFreq
    | SwapKey | SwapTs | SwapFreq
    | Release
    | Done | GaveUp

  /** A thread: the item it carries, its layer, the words it has read, and its tries left. */
  datatype Thread = Thread(pc: Pc, home: nat, key: nat, freq: nat, ts: nat, layer: nat, tries: nat,
                           inKey: nat, inTs: nat, inFreq: nat)

  predicate InCs(t: Thread) {
    t.pc != Try && t.pc != Done && t.pc != GaveUp
  }

  predicate Sound(t: Thread) {
    t.home < FIRST && t.layer < 3
  }

  /** To the next layer, or to the release behind the last. */
  function Climb(t: Thread): Thread {
    if t.layer < 2 then t.(layer := t.layer + 1, pc := ReadFreq) else t.(pc := Release)
  }

  datatype Effect = Effect(table: Table, t: Thread)

  /** One access inside the critical section. */
  function Access(table: Table, t: Thread): Effect
    requires Sound(t)
  {
    var p := Pos(t.home, t.layer);
    var c := table[p];
    match t.pc
    case ReadFreq => Effect(table, t.(pc := if c.freq == 0 then PutTs else ReadKey))
    case ReadKey => Effect(table, t.(pc := if c.key == t.key then MergeReadTs else ProbeTs))
    case MergeReadTs => Effect(table, t.(inTs := c.ts, pc := MergeWriteTs))
    case MergeWriteTs => Effect(table[p := c.(ts := Newest(t.inTs, t.ts))], t.(pc := MergeReadFreq))
    case MergeReadFreq => Effect(table, t.(inFreq := c.freq, pc := MergeWriteFreq))
    case MergeWriteFreq => Effect(table[p := c.(freq := I.Add32(t.inFreq, t.freq))], t.(pc := Release))
    case ProbeTs => Effect(table, t.(inTs := c.ts, pc := ProbeFreq))
    case ProbeFreq =>
      var t' := t.(inFreq := c.freq);
      Effect(table, if t.layer == 2 then t'.(pc := ProbeKey)
                    else if Takes(Cell(0, t.inTs, c.freq), t.ts) then t'.(pc := PutTs) else Climb(t'))
    case ProbeKey =>
      var t' := t.(inKey := c.key);
      Effect(table, if t.freq > t.inFreq then t'.(pc := SwapKey) else Climb(t'))
    case PutTs => Effect(table[p := c.(ts := t.ts)], t.(pc := PutKey))
    case PutKey => Effect(table[p := c.(key := t.key)], t.(pc := PutFreq))
    case PutFreq => Effect(table[p := c.(freq := t.freq)], t.(pc := Release))
    case SwapKey => Effect(table[p := c.(key := t.key)], t.(pc := SwapTs))
    case SwapTs => Effect(table[p := c.(ts := t.ts)], t.(pc := SwapFreq))
    case SwapFreq =>
      Effect(table[p := c.(freq := t.freq)], Climb(t.(key := t.inKey, freq := t.inFreq, ts := t.inTs)))
    case _ => Effect(table, t)
  }

  function PcRank(pc: Pc): nat {
    match pc
    case ReadFreq => 11
    case ReadKey => 10
    case ProbeTs => 9
    case ProbeFreq => 8
    case ProbeKey => 7
    case SwapKey => 6
    case SwapTs => 5
    case MergeReadTs => 5
    case SwapFreq => 4
    case MergeWriteTs => 4
    case MergeReadFreq => 3
    case PutTs => 3
    case MergeWriteFreq => 2
    case PutKey => 2
    case PutFreq => 1
    case _ => 0
  }

  /** Accesses left, at most. */
  function Rank(t: Thread): nat {
    if InCs(t) && t.pc != Release && t.layer < 3 then (3 - t.layer) * 12 + PcRank(t.pc) else 0
  }

  lemma AccessAdvances(table: Table, t: Thread)
    requires Sound(t) && InCs(t) && t.pc != Release
    ensures var e := Access(table, t);
            Rank(e.t) < Rank(t) && Sound(e.t) && InCs(e.t) && e.t.home == t.home
  {
  }

  /** The table once a thread inside the critical section has finished, undisturbed. */
  function Finish(table: Table, t: Thread): Table
    requires Sound(t)
    decreases Rank(t)
  {
    if !InCs(t) || t.pc == Release then table
    else
      AccessAdvances(table, t);
      Finish(Access(table, t).table, Access(table, t).t)
  }

  lemma OneAccess(table: Table, t: Thread)
    requires Sound(t) && InCs(t) && t.pc != Release
    ensures Sound(Access(table, t).t) && Finish(table, t) == Finish(Access(table, t).table, Access(table, t).t)
  {
    AccessAdvances(table, t);
  }

  lemma FinishPut(table: Table, t: Thread)
    requires Sound(t) && t.pc == PutTs
    ensures Finish(table, t) == table[Pos(t.home, t.layer) := Cell(t.key, t.ts, t.freq)]
  {
    OneAccess(table, t);
    var e1 := Access(table, t);
    OneAccess(e1.table, e1.t);
    var e2 := Access(e1.table, e1.t);
    OneAccess(e2.table, e2.t);
  }

  lemma UpdateTwice(table: Table, p: nat, c: Cell, c': Cell)
    requires p < CELLS
    ensures table[p := c][p] == c && table[p := c][p := c'] == table[p := c']
  {
  }

  lemma FinishMergeTs(table: Table, t: Thread)
    requires Sound(t) && t.pc == MergeReadTs
    ensures var c := table[Pos(t.home, t.layer)];
            Finish(table, t) == Finish(table[Pos(t.home, t.layer) := c.(ts := Newest(c.ts, t.ts))],
                                       t.(pc := MergeReadFreq, inTs := c.ts))
  {
    OneAccess(table, t);
    OneAccess(table, Access(table, t).t);
  }

  lemma FinishMergeFreq(table: Table, t: Thread)
    requires Sound(t) && t.pc == MergeReadFreq
    ensures var c := table[Pos(t.home, t.layer)];
            Finish(table, t) == table[Pos(t.home, t.layer) := c.(freq := I.Add32(c.freq, t.freq))]
  {
    OneAccess(table, t);
    OneAccess(table, Access(table, t).t);
  }

  lemma FinishMerge(table: Table, t: Thread)
    requires Sound(t) && t.pc == MergeReadTs
    ensures var c := table[Pos(t.home, t.layer)];
            Finish(table, t) == table[Pos(t.home, t.layer) := Cell(c.key, Newest(c.ts, t.ts), I.Add32(c.freq, t.freq))]
  {
    var p, c := Pos(t.home, t.layer), table[Pos(t.home, t.layer)];
    var ts, freq := Newest(c.ts, t.ts), I.Add32(c.freq, t.freq);
    FinishMergeTs(table, t);
    FinishMerged(table, t.(pc := MergeReadFreq, inTs := c.ts), c.(ts := ts), freq);
  }

  /** The second half of a merge, on the table after the first. */
  lemma FinishMerged(table: Table, t: Thread, c': Cell, freq: nat)
    requires Sound(t) && t.pc == MergeReadFreq && freq == I.Add32(c'.freq, t.freq)
    ensures var p := Pos(t.home, t.layer); Finish(table[p := c'], t) == table[p := c'.(freq := freq)]
  {
    var p := Pos(t.home, t.layer);
    FinishMergeFreq(table[p := c'], t);
    UpdateTwice(table, p, c', c'.(freq := freq));
  }

  lemma FinishSwap(table: Table, t: Thread)
    requires Sound(t) && t.pc == SwapKey && t.layer == 2
    ensures Finish(table, t) == table[Pos(t.home, t.layer) := Cell(t.key, t.ts, t.freq)]
  {
    OneAccess(table, t);
    var e1 := Access(table, t);
    OneAccess(e1.table, e1.t);
    var e2 := Access(e1.table, e1.t);
    OneAccess(e2.table, e2.t);
  }

  lemma FinishRead(table: Table, t: Thread)
    requires Sound(t) && t.pc == ReadFreq
    ensures var c := table[Pos(t.home, t.layer)];
            Finish(table, t) == Finish(table,
              t.(pc := if c.freq == 0 then PutTs else if c.key == t.key then MergeReadTs else ProbeTs))
  {
    OneAccess(table, t);
    if table[Pos(t.home, t.layer)].freq != 0 { OneAccess(table, t.(pc := ReadKey)); }
  }

  lemma FinishProbeFreq(table: Table, t: Thread)
    requires Sound(t) && t.pc == ProbeFreq && t.layer < 2
    ensures var c := table[Pos(t.home, t.layer)];
            var t' := t.(inFreq := c.freq);
            Finish(table, t) == Finish(table, if Takes(Cell(0, t.inTs, c.freq), t.ts) then t'.(pc := PutTs)
              else Climb(t'))
  {
    OneAccess(table, t);
  }

  lemma FinishProbe(table: Table, t: Thread)
    requires Sound(t) && t.pc == ProbeTs && t.layer < 2
    ensures var c := table[Pos(t.home, t.layer)];
            var t' := t.(inTs := c.ts, inFreq := c.freq);
            Finish(table, t) == Finish(table, if Takes(c, t.ts) then t'.(pc := PutTs) else Climb(t'))
  {
    var c := table[Pos(t.home, t.layer)];
    OneAccess(table, t);
    FinishProbeFreq(table, t.(inTs := c.ts, pc := ProbeFreq));
    assert Takes(Cell(0, c.ts, c.freq), t.ts) == Takes(c, t.ts);
  }

  lemma FinishDLeft(table: Table, t: Thread)
    requires Sound(t) && t.pc == ProbeTs && t.layer < 2
    ensures var c := table[Pos(t.home, t.layer)];
            Finish(table, t) == if Takes(c, t.ts) then table[Pos(t.home, t.layer) := Cell(t.key, t.ts, t.freq)]
                                else Finish(table, Climb(t.(inTs := c.ts, inFreq := c.freq)))
  {
    var c := table[Pos(t.home, t.layer)];
    FinishProbe(table, t);
    if Takes(c, t.ts) { FinishPut(table, t.(inTs := c.ts, inFreq := c.freq, pc := PutTs)); }
  }

  lemma FinishProbeWinner(table: Table, t: Thread)
    requires Sound(t) && t.pc == ProbeTs && t.layer == 2
    ensures var c := table[Pos(t.home, t.layer)];
            Finish(table, t) == if t.freq > c.freq then table[Pos(t.home, t.layer) := Cell(t.key, t.ts, t.freq)]
              else table
  {
    OneAccess(table, t);
    var t1 := Access(table, t).t;
    OneAccess(table, t1);
    var t2 := Access(table, t1).t;
    OneAccess(table, t2);
    var t3 := Access(table, t2).t;
    if t3.pc == SwapKey { FinishSwap(table, t3); }
  }

  /** The cell is empty, or holds the key already. */
  lemma FinishHere(table: Table, t: Thread)
    requires Sound(t) && t.pc == ReadFreq
    requires var c := table[Pos(t.home, t.layer)]; c.freq == 0 || c.key == t.key
    ensures var c := table[Pos(t.home, t.layer)];
            Finish(table, t) == table[Pos(t.home, t.layer) := if c.freq == 0 then Cell(t.key, t.ts, t.freq)
                                                              else Cell(c.key, Newest(c.ts, t.ts),
                                                                I.Add32(c.freq, t.freq))]
  {
    FinishRead(table, t);
    if table[Pos(t.home, t.layer)].freq == 0 {
      FinishPut(table, t.(pc := PutTs));
    } else {
      FinishMerge(table, t.(pc := MergeReadTs));
    }
  }

  /** The last layer holds another key. */
  lemma FinishLast(table: Table, t: Thread)
    requires Sound(t) && t.pc == ReadFreq && t.layer == 2
    requires var c := table[Pos(t.home, t.layer)]; c.freq != 0 && c.key != t.key
    ensures var c := table[Pos(t.home, t.layer)];
            Finish(table, t) == if t.freq > c.freq then table[Pos(t.home, t.layer) := Cell(t.key, t.ts, t.freq)]
              else table
  {
    FinishRead(table, t);
    FinishProbeWinner(table, t.(pc := ProbeTs));
  }

  /** A d-left layer holds another key. */
  lemma FinishFirst(table: Table, t: Thread) returns (t': Thread)
    requires Sound(t) && t.pc == ReadFreq && t.layer < 2
    requires var c := table[Pos(t.home, t.layer)]; c.freq != 0 && c.key != t.key
    ensures Sound(t') && t'.pc == ReadFreq && t'.layer == t.layer + 1
    ensures var c := table[Pos(t.home, t.layer)];
            Finish(table, t) == if Takes(c, t.ts) then table[Pos(t.home, t.layer) := Cell(t.key, t.ts, t.freq)]
              else Finish(table, t')
    ensures t'.home == t.home && t'.key == t.key && t'.freq == t.freq && t'.ts == t.ts
  {
    var c := table[Pos(t.home, t.layer)];
    FinishRead(table, t);
    FinishDLeft(table, t.(pc := ProbeTs));
    t' := Climb(t.(pc := ProbeTs, inTs := c.ts, inFreq := c.freq));
  }

  /** Word by word, an undisturbed thread does one whole insertion. */
  lemma {:induction false} FinishIsInsert(table: Table, t: Thread)
    requires Sound(t) && t.pc == ReadFreq
    ensures Finish(table, t) == InsertAlone(table, t.home, t.layer, t.key, t.freq, t.ts)
    decreases 3 - t.layer
  {
    var c := table[Pos(t.home, t.layer)];
    if c.freq == 0 || c.key == t.key {
      FinishHere(table, t);
    } else if t.layer == 2 {
      FinishLast(table, t);
    } else {
      var t' := FinishFirst(table, t);
      if !Takes(c, t.ts) { FinishIsInsert(table, t'); }
    }
  }

  // ----- locality

  /** Two tables agree on the cells a lock guards. */
  ghost predicate Agree(a: Table, b: Table, lock: nat) {
    forall c | 0 <= c < CELLS && Owner(c) == lock :: a[c] == b[c]
  }

  /** They agree everywhere else. */
  ghost predicate AgreeOff(a: Table, b: Table, lock: nat) {
    forall c | 0 <= c < CELLS && Owner(c) != lock :: a[c] == b[c]
  }

  /** An access changes one cell, and depends on that cell only. */
  lemma AccessOne(a: Table, b: Table, t: Thread) returns (x: Cell)
    requires Sound(t) && a[Pos(t.home, t.layer)] == b[Pos(t.home, t.layer)]
    ensures Access(a, t).t == Access(b, t).t
    ensures Access(a, t).table == a[Pos(t.home, t.layer) := x] && Access(b, t).table == b[Pos(t.home, t.layer) := x]
  {
    x := Access(a, t).table[Pos(t.home, t.layer)];
  }

  lemma AccessLocal(a: Table, b: Table, t: Thread)
    requires Sound(t) && Agree(a, b, LockOf(t.home))
    ensures Access(a, t).t == Access(b, t).t && Agree(Access(a, t).table, Access(b, t).table, LockOf(t.home))
    ensures AgreeOff(Access(a, t).table, a, LockOf(t.home))
  {
    var x := AccessOne(a, b, t);
    OwnCells(t.home, t.layer);
  }

  /** What a thread does depends on its own cells only, and changes no others. */
  lemma {:induction false} FinishLocal(a: Table, b: Table, t: Thread)
    requires Sound(t) && Agree(a, b, LockOf(t.home))
    ensures Agree(Finish(a, t), Finish(b, t), LockOf(t.home)) && AgreeOff(Finish(a, t), a, LockOf(t.home))
    decreases Rank(t)
  {
    if InCs(t) && t.pc != Release {
      AccessAdvances(a, t);
      AccessLocal(a, b, t);
      FinishLocal(Access(a, t).table, Access(b, t).table, Access(a, t).t);
    }
  }
}
