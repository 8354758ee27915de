/** Burst mode: each counter word packs a 4-bit burst field above a 28-bit counter. The packed table is shown to
    simulate a table that keeps the counter and the number of merges apart. */
module BurstSpec {
  import opened Bytes
  import opened Items
  import opened AHeapSpec

  const C28 := 0x1000_0000

  // ----- the packed words

  /** The masks and shifts of the source, on 32-bit words, are the arithmetic used below. */
  lemma MasksAreArithmetic(x: bv32, n: bv32)
    requires n <= 8
    ensures x & 0x0FFF_FFFF == x % 0x1000_0000
    ensures x & 0xF000_0000 == x / 0x1000_0000 * 0x1000_0000
    ensures (x & 0x0FFF_FFFF) | (n * 0x1000_0000) == x % 0x1000_0000 + n * 0x1000_0000
  {
  }

  /** x & 0x0FFFFFFF */
  function CounterValue(x: nat): nat {
    x % C28
  }

  /** x & 0xF0000000 */
  function BurstyField(x: nat): nat {
    x / C28 * C28
  }

  /** (x & 0x0FFFFFFF) | n << 28 */
  function SetBursty(x: nat, n: nat): nat {
    x % C28 + n * C28
  }

  /** Burst field n becomes n + 1, up to 8. */
  function IncrementBursty(x: nat): nat {
    if BurstyField(x) < 8 * C28 then SetBursty(x, x / C28 + 1) else x
  }

  datatype BurstHit = BurstHit(hit: Hit, ret: int)

  /** A same-key merge; 1 if the burst field is full, which level 0 does not report. */
  function MergeBursty(level: nat, cell: Item, item: Item): BurstHit {
    var count := Add32(cell.count, item.count);
    var full := BurstyField(count) == 8 * C28;
    BurstHit(Hit(Item(cell.key, if full then count else IncrementBursty(count), Later(cell.time, item.time)), item,
      true),
             if full && level > 0 then 1 else 0)
  }

  /** The incoming item takes the cell with burst field 1; the resident leaves with burst field 0. */
  function ExchangeBursty(cell: Item, item: Item): Hit {
    Hit(Item(item.key, SetBursty(item.count, 1), item.time), Item(cell.key, SetBursty(cell.count, 0), cell.time), false)
  }

  function VisitBursty(level: nat, cell: Item, item: Item): BurstHit {
    if cell.count == 0 then BurstHit(Hit(Item(item.key, SetBursty(item.count, 1), item.time), item, true), 0)
    else if item.key == cell.key then MergeBursty(level, cell, item)
    else if level == 2 || (if level < 2 then CounterValue(cell.count) == 1 else CounterValue(cell.count) < item.count)
      then BurstHit(ExchangeBursty(cell, item), 0)
    else BurstHit(Hit(cell, item, false), 0)
  }

  datatype BurstResult = BurstResult(cells: seq<Item>, ret: int)

  function BurstFrom(m: nat, cells: seq<Item>, h: nat, level: nat, item: Item): (r: BurstResult)
    requires |cells| == 15 * m && h < 8 * m && level <= 4
    ensures |r.cells| == |cells|
    decreases 4 - level
  {
    if level == 4 then BurstResult(cells, 0)
    else
      PosInLevel(m, h, level);
      var pos := Pos(m, h, level);
      var b := VisitBursty(level, cells[pos], item);
      var cells' := cells[pos := b.hit.cell];
      if b.hit.done then BurstResult(cells', b.ret) else BurstFrom(m, cells', h, level + 1, b.hit.item)
  }

  /** The insertion of `item` from `level` on is the step to `after`, followed by the way of `carried`. */
  ghost predicate BurstClimbs(m: nat, before: seq<Item>, h: nat, level: nat, item: Item, after: seq<Item>, done: bool,
                              ret: int, carried: Item)
    requires h < 8 * m && level < 4
  {
    |before| == |after| == 15 * m
    && BurstFrom(m, before, h, level, item) == if done then BurstResult(after, ret)
       else BurstFrom(m, after, h, level + 1, carried)
  }

  lemma BurstVisitClimbs(m: nat, before: seq<Item>, h: nat, level: nat, item: Item, after: seq<Item>, done: bool,
                         ret: int, carried: Item)
    requires |before| == 15 * m && h < 8 * m && level < 4 && Pos(m, h, level) < |before|
    requires var b := VisitBursty(level, before[Pos(m, h, level)], item);
             after == before[Pos(m, h, level) := b.hit.cell] && done == b.hit.done
             && (if done then ret == b.ret else carried == b.hit.item)
    ensures BurstClimbs(m, before, h, level, item, after, done, ret, carried)
  {
  }

  lemma {:induction false} BurstAbove(m: nat, cells: seq<Item>, h: nat, level: nat, item: Item, l: nat)
    requires |cells| == 15 * m && h < 8 * m && l < level <= 4 && Pos(m, h, l) < |cells|
    ensures BurstFrom(m, cells, h, level, item).cells[Pos(m, h, l)] == cells[Pos(m, h, l)]
    decreases 4 - level
  {
    if level < 4 {
      PosInLevel(m, h, level);
      PosInLevel(m, h, l);
      var hit := VisitBursty(level, cells[Pos(m, h, level)], item).hit;
      if !hit.done { BurstAbove(m, cells[Pos(m, h, level) := hit.cell], h, level + 1, hit.item, l); }
    }
  }

  // ----- the same with the fields kept apart

  /** A cell with its counter and the same-key merges since its item was placed there. */
  datatype Cell = Cell(item: Item, merges: nat)

  /** The burst field that stands for a number of merges. */
  function Hits(merges: nat): nat {
    if merges >= 7 then 8 else merges + 1
  }

  function Pack(c: Cell): Item {
    if c.item.count == 0 then c.item else c.item.(count := c.item.count + Hits(c.merges) * C28)
  }

  datatype CellHit = CellHit(cell: Cell, item: Item, done: bool, ret: int)

  function VisitCell(level: nat, c: Cell, item: Item): CellHit {
    if c.item.count == 0 then CellHit(Cell(item, 0), item, true, 0)
    else if item.key == c.item.key then
      CellHit(Cell(Item(c.item.key, c.item.count + item.count, Later(c.item.time, item.time)), c.merges + 1), item,
        true,
              if c.merges >= 7 && level > 0 then 1 else 0)
    else if level == 2 || (if level < 2 then c.item.count == 1 else c.item.count < item.count)
      then CellHit(Cell(item, 0), c.item, false, 0)
    else CellHit(c, item, false, 0)
  }

  datatype CellResult = CellResult(cells: seq<Cell>, ret: int)

  function CellsFrom(m: nat, cells: seq<Cell>, h: nat, level: nat, item: Item): (r: CellResult)
    requires |cells| == 15 * m && h < 8 * m && level <= 4
    ensures |r.cells| == |cells|
    decreases 4 - level
  {
    if level == 4 then CellResult(cells, 0)
    else
      PosInLevel(m, h, level);
      var pos := Pos(m, h, level);
      var b := VisitCell(level, cells[pos], item);
      var cells' := cells[pos := b.cell];
      if b.done then CellResult(cells', b.ret) else CellsFrom(m, cells', h, level + 1, b.item)
  }

  function Plain(cells: seq<Cell>): (r: seq<Item>)
    ensures |r| == |cells|
  {
    seq(|cells|, i requires 0 <= i < |cells| => cells[i].item)
  }

  function PackAll(cells: seq<Cell>): (r: seq<Item>)
    ensures |r| == |cells|
  {
    seq(|cells|, i requires 0 <= i < |cells| => Pack(cells[i]))
  }

  // ----- simulation

  lemma Fields(n: nat, f: nat)
    requires n < C28 && f <= 8
    ensures var x := n + f * C28;
            x / C28 == f && CounterValue(x) == n && BurstyField(x) == f * C28 && x < U32 && Add32(x, 0) == x
  {
  }

  lemma MergePacked(level: nat, c: Cell, item: Item)
    requires 0 < item.count && 0 < c.item.count && c.item.key == item.key && c.item.count + item.count < C28
    ensures var a, b := VisitCell(level, c, item), VisitBursty(level, Pack(c), item);
            b.hit.cell == Pack(a.cell) && b.hit.done == a.done && b.ret == a.ret
  {
    var n := c.item.count + item.count;
    Fields(c.item.count, Hits(c.merges));
    Fields(n, Hits(c.merges));
    assert Add32(Pack(c).count, item.count) == n + Hits(c.merges) * C28;
  }

  /** One level, if the counter stays below 2^28: no merge or exchange leaks from one field into the other, and an item
      that travels on has burst field 0. */
  lemma VisitPacked(level: nat, c: Cell, item: Item)
    requires 0 < item.count < C28 && c.item.count < C28 && (c.item.key == item.key ==> c.item.count + item.count < C28)
    ensures var a, b := VisitCell(level, c, item), VisitBursty(level, Pack(c), item);
            b.hit.cell == Pack(a.cell) && b.hit.done == a.done && b.ret == a.ret
            && (!a.done ==> b.hit.item == a.item && 0 < a.item.count < C28)
  {
    Fields(item.count, 0);
    if c.item.count != 0 {
      Fields(c.item.count, Hits(c.merges));
      if item.key == c.item.key { MergePacked(level, c, item); }
    }
  }

  lemma VisitCellNoGain(level: nat, c: Cell, item: Item, k: Key)
    requires item.count > 0
    ensures var a := VisitCell(level, c, item);
            Weight(a.cell.item, k) + (if a.done then 0 else Weight(a.item, k)) <= Weight(c.item, k) + Weight(item, k)
            && (!a.done ==> a.item.count > 0)
  {
  }

  /** The counters on an insertion's way stay below 2^28. */
  ghost predicate Fits28(cells: seq<Cell>, item: Item) {
    forall k :: Stored(Plain(cells), k) + Weight(item, k) < C28
  }

  lemma VisitFits28(m: nat, cells: seq<Cell>, h: nat, level: nat, item: Item)
    requires |cells| == 15 * m && h < 8 * m && level < 4 && item.count > 0 && Fits28(cells, item)
    ensures Pos(m, h, level) < |cells|
    ensures var c := cells[Pos(m, h, level)];
            c.item.count < C28 && item.count < C28 && (c.item.key == item.key ==> c.item.count + item.count < C28)
    ensures var a := VisitCell(level, cells[Pos(m, h, level)], item);
            !a.done ==> Fits28(cells[Pos(m, h, level) := a.cell], a.item)
  {
    PosInLevel(m, h, level);
    var pos := Pos(m, h, level);
    var c := cells[pos];
    var a := VisitCell(level, c, item);
    StoredAtLeast(Plain(cells), pos, c.item.key);
    assert Stored(Plain(cells), c.item.key) + Weight(item, c.item.key) < C28;
    assert Stored(Plain(cells), item.key) + Weight(item, item.key) < C28;
    if !a.done {
      var cells' := cells[pos := a.cell];
      assert Plain(cells') == Plain(cells)[pos := a.cell.item];
      forall k ensures Stored(Plain(cells'), k) + Weight(a.item, k) < C28 {
        VisitCellNoGain(level, c, item, k);
        StoredUpdate(Plain(cells), pos, a.cell.item, k);
        assert Stored(Plain(cells), k) + Weight(item, k) < C28;
      }
    }
  }

  /** One insertion on packed words is the insertion on separate fields. */
  lemma {:induction false} BurstSimulates(m: nat, cells: seq<Cell>, h: nat, level: nat, item: Item)
    requires |cells| == 15 * m && h < 8 * m && level <= 4 && item.count > 0 && Fits28(cells, item)
    ensures var a, b := CellsFrom(m, cells, h, level, item), BurstFrom(m, PackAll(cells), h, level, item);
            b.cells == PackAll(a.cells) && b.ret == a.ret
    decreases 4 - level
  {
    if level < 4 {
      PosInLevel(m, h, level);
      VisitFits28(m, cells, h, level, item);
      var pos := Pos(m, h, level);
      var c := cells[pos];
      VisitPacked(level, c, item);
      var a := VisitCell(level, c, item);
      var cells' := cells[pos := a.cell];
      assert PackAll(cells)[pos := Pack(a.cell)] == PackAll(cells');
      if !a.done { BurstSimulates(m, cells', h, level + 1, a.item); }
    }
  }

  lemma {:induction false} CellsNoGain(m: nat, cells: seq<Cell>, h: nat, level: nat, item: Item, k: Key)
    requires |cells| == 15 * m && h < 8 * m && level <= 4 && item.count > 0
    ensures Stored(Plain(CellsFrom(m, cells, h, level, item).cells), k) <= Stored(Plain(cells), k) + Weight(item, k)
    decreases 4 - level
  {
    if level < 4 {
      PosInLevel(m, h, level);
      var pos := Pos(m, h, level);
      var a := VisitCell(level, cells[pos], item);
      VisitCellNoGain(level, cells[pos], item, k);
      StoredUpdate(Plain(cells), pos, a.cell.item, k);
      var cells' := cells[pos := a.cell];
      assert Plain(cells') == Plain(cells)[pos := a.cell.item];
      if !a.done { CellsNoGain(m, cells', h, level + 1, a.item, k); }
    }
  }

  // ----- runs

  datatype BurstPacket = BurstPacket(key: Key, time: nat)

  function RunPacked(m: nat, home: Key -> nat, ps: seq<BurstPacket>): (r: BurstResult)
    ensures |r.cells| == 15 * m
  {
    if ps == [] then BurstResult(seq(15 * m, _ => EMPTY), 0)
    else
      var cells, p := RunPacked(m, home, ps[..|ps| - 1]).cells, ps[|ps| - 1];
      if home(p.key) < 8 * m then BurstFrom(m, cells, home(p.key), 0, Item(p.key, 1, p.time)) else BurstResult(cells, 0)
  }

  function RunCells(m: nat, home: Key -> nat, ps: seq<BurstPacket>): (r: CellResult)
    ensures |r.cells| == 15 * m
  {
    if ps == [] then CellResult(seq(15 * m, _ => Cell(EMPTY, 0)), 0)
    else
      var cells, p := RunCells(m, home, ps[..|ps| - 1]).cells, ps[|ps| - 1];
      if home(p.key) < 8 * m then CellsFrom(m, cells, home(p.key), 0, Item(p.key, 1, p.time)) else CellResult(cells, 0)
  }

  function BurstPackets(ps: seq<BurstPacket>, k: Key): (n: nat)
    ensures n <= |ps|
  {
    if ps == [] then 0 else BurstPackets(ps[..|ps| - 1], k) + if ps[|ps| - 1].key == k then 1 else 0
  }

  lemma {:induction false} CellsNoOverEstimate(m: nat, home: Key -> nat, ps: seq<BurstPacket>, k: Key)
    ensures Stored(Plain(RunCells(m, home, ps).cells), k) <= BurstPackets(ps, k)
  {
    if ps == [] {
      StoredNone(Plain(RunCells(m, home, ps).cells), k);
    } else {
      var cells, p := RunCells(m, home, ps[..|ps| - 1]).cells, ps[|ps| - 1];
      CellsNoOverEstimate(m, home, ps[..|ps| - 1], k);
      if home(p.key) < 8 * m { CellsNoGain(m, cells, home(p.key), 0, Item(p.key, 1, p.time), k); }
    }
  }

  /** No flow has so many packets that its counters could run into the burst field; the stream may be longer. */
  ghost predicate NoneOverflows(ps: seq<BurstPacket>) {
    forall k {:trigger BurstPackets(ps, k)} :: BurstPackets(ps, k) < C28
  }

  /** Packed refinement: while every flow has fewer than 2^28 packets, the packed table is, cell by cell and answer by
      answer, the packing of the table that keeps counter and merges apart. */
  lemma {:induction false} PackedRefines(m: nat, home: Key -> nat, ps: seq<BurstPacket>)
    requires NoneOverflows(ps)
    ensures RunPacked(m, home, ps).cells == PackAll(RunCells(m, home, ps).cells)
    ensures RunPacked(m, home, ps).ret == RunCells(m, home, ps).ret
  {
    if ps != [] {
      var rest, p := ps[..|ps| - 1], ps[|ps| - 1];
      forall k ensures BurstPackets(rest, k) < C28 { assert BurstPackets(ps, k) < C28; }
      PackedRefines(m, home, rest);
      if home(p.key) < 8 * m {
        var cells, item := RunCells(m, home, rest).cells, Item(p.key, 1, p.time);
        forall k ensures Stored(Plain(cells), k) + Weight(item, k) < C28 {
          CellsNoOverEstimate(m, home, rest, k);
          assert BurstPackets(ps, k) < C28;
        }
        BurstSimulates(m, cells, home(p.key), 0, item);
      }
    }
  }

  lemma UnpackedCell(c: Cell)
    requires c.item.count < C28
    ensures var word := Pack(c).count;
            CounterValue(word) == c.item.count
            && (c.item.count != 0 ==> word / C28 == Hits(c.merges) == if 1 + c.merges < 8 then 1 + c.merges else 8)
  {
    Fields(c.item.count, Hits(c.merges));
    Fields(c.item.count, 0);
  }

  /** Reading a packed cell: the counter and the burst field come apart again, and the field is min(8, 1 + merges). */
  lemma UnpackedFields(m: nat, home: Key -> nat, ps: seq<BurstPacket>, i: nat)
    requires NoneOverflows(ps) && i < 15 * m
    ensures var word, c := RunPacked(m, home, ps).cells[i].count, RunCells(m, home, ps).cells[i];
            word % 0x1000_0000 == c.item.count
            && (c.item.count != 0 ==> word / 0x1000_0000 == if 1 + c.merges < 8 then 1 + c.merges else 8)
  {
    var cells := RunCells(m, home, ps).cells;
    var k := cells[i].item.key;
    PackedRefines(m, home, ps);
    CellsNoOverEstimate(m, home, ps, k);
    StoredAtLeast(Plain(cells), i, k);
    assert BurstPackets(ps, k) < C28;
    UnpackedCell(cells[i]);
  }

  // ----- branches

  lemma BurstyKeys(level: nat, cell: Item, item: Item, ok: Key -> bool)
    requires (cell.count != 0 ==> ok(cell.key)) && ok(item.key)
    ensures var hit := VisitBursty(level, cell, item).hit;
            (hit.cell.count != 0 ==> ok(hit.cell.key)) && (!hit.done ==> ok(hit.item.key))
  {
  }

  /** A burst insertion keeps every item, evicted ones included, on its own key's branch. */
  lemma {:induction false} BurstKeepsBranches(m: nat, home: Key -> nat, cells: seq<Item>, h: nat, level: nat,
                                              item: Item)
    requires Homes(m, home) && OnBranches(m, home, cells) && h < 8 * m && level <= 4
    requires level < 4 ==> Pos(m, home(item.key), level) == Pos(m, h, level)
    ensures OnBranches(m, home, BurstFrom(m, cells, h, level, item).cells)
    decreases 4 - level
  {
    if level < 4 {
      PosInLevel(m, h, level);
      var pos := Pos(m, h, level);
      var hit := VisitBursty(level, cells[pos], item).hit;
      assert OnBranch(m, home, cells[pos], pos);
      BurstyKeys(level, cells[pos], item, k => Pos(m, home(k), level) == pos);
      if !hit.done {
        SameAbove(m, home(hit.item.key), h, level);
        BurstKeepsBranches(m, home, cells[pos := hit.cell], h, level + 1, hit.item);
      }
    }
  }
}
