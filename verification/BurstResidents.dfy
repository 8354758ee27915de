/** Burst mode, with counters and merges kept apart: what an insertion does to each cell of its branch, and exactly when
    it reports a burst. */
module BurstResidents {
  import opened Bytes
  import opened Items
  import opened AHeapSpec
  import opened BurstSpec
  import opened Residents

  /** The cell an insertion meets at a level. */
  ghost function Met(m: nat, cells: seq<Cell>, h: nat, level: nat): Cell
    requires |cells| == 15 * m && h < 8 * m && level < 4
  {
    PlaceIsPos(m, h, level);
    cells[Place(m, h, level)]
  }

  /** An empty cell takes the item with no merges, and a cell of the same key adds the counter, keeps the later time and
      counts a merge; the insertion ends. It reports a burst exactly for a merge above level 0 that was preceded by at
      least 7 others. */
  lemma OwnCell(m: nat, cells: seq<Cell>, h: nat, level: nat, item: Item)
    requires |cells| == 15 * m && h < 8 * m && level < 4
    requires var c := Met(m, cells, h, level); c.item.count == 0 || c.item.key == item.key
    ensures var c, r := Met(m, cells, h, level), CellsFrom(m, cells, h, level, item);
            var x := Met(m, r.cells, h, level);
            r.cells == cells[Place(m, h, level) := x]
            && (c.item.count == 0 ==> x == Cell(item, 0) && r.ret == 0)
            && (c.item.count != 0 ==>
                  x.item.key == item.key && x.item.count == c.item.count + item.count && x.merges == c.merges + 1
                  && x.item.time >= c.item.time && x.item.time >= item.time
                  && (x.item.time == c.item.time || x.item.time == item.time)
                  && r.ret == if level > 0 && c.merges >= 7 then 1 else 0)
  {
    PlaceIsPos(m, h, level);
  }

  /** A cell of another key gives way at level 0 and 1 exactly if it holds a single packet, at level 2 always, and at
      the root exactly to an item with a larger counter; whichever does not stay goes on. */
  lemma OtherCell(m: nat, cells: seq<Cell>, h: nat, level: nat, item: Item)
    requires |cells| == 15 * m && h < 8 * m && level < 4
    requires var c := Met(m, cells, h, level); c.item.count != 0 && c.item.key != item.key
    ensures var c := Met(m, cells, h, level);
            CellsFrom(m, cells, h, level, item)
              == if level == 2 || (level < 2 && c.item.count == 1) || (level == 3 && c.item.count < item.count)
                 then CellsFrom(m, cells[Place(m, h, level) := Cell(item, 0)], h, level + 1, c.item)
                 else CellsFrom(m, cells, h, level + 1, item)
  {
    PlaceIsPos(m, h, level);
    var pos := Pos(m, h, level);
    assert cells[pos := cells[pos]] == cells;
  }

  /** Cell i above level 0 counted a merge that was preceded by at least 7 others. */
  ghost predicate BurstAt(m: nat, before: seq<Cell>, after: seq<Cell>, i: nat) {
    |before| == |after| == 15 * m && 8 * m <= i < 15 * m
    && before[i].item.count != 0 && before[i].merges >= 7
    && after[i].item.key == before[i].item.key && after[i].merges == before[i].merges + 1
  }

  ghost predicate SomeBurst(m: nat, before: seq<Cell>, after: seq<Cell>) {
    exists i: nat :: BurstAt(m, before, after, i)
  }

  lemma {:induction false} CellsAbove(m: nat, cells: seq<Cell>, h: nat, level: nat, item: Item, i: nat)
    requires |cells| == 15 * m && h < 8 * m && level <= 4 && i < LevelStart(m, level) && i < 15 * m
    ensures CellsFrom(m, cells, h, level, item).cells[i] == cells[i]
    decreases 4 - level
  {
    if level < 4 {
      PosInLevel(m, h, level);
      var b := VisitCell(level, cells[Pos(m, h, level)], item);
      if !b.done { CellsAbove(m, cells[Pos(m, h, level) := b.cell], h, level + 1, b.item, i); }
    }
  }

  /** An exchange starts a cell with no merges, so it is never taken for a merge. */
  lemma VisitNoMerge(level: nat, c: Cell, item: Item)
    ensures var b := VisitCell(level, c, item);
            !b.done ==> b.cell.merges != c.merges + 1
  {
  }

  /** An insertion reports a burst exactly if some cell above level 0 counted a merge after at least 7 others. */
  lemma {:induction false} ReportsBurst(m: nat, cells: seq<Cell>, h: nat, level: nat, item: Item)
    requires |cells| == 15 * m && h < 8 * m && level <= 4
    ensures var r := CellsFrom(m, cells, h, level, item);
            r.ret == if SomeBurst(m, cells, r.cells) then 1 else 0
    decreases 4 - level
  {
    var r := CellsFrom(m, cells, h, level, item);
    if level < 4 {
      PosInLevel(m, h, level);
      var pos := Pos(m, h, level);
      var b := VisitCell(level, cells[pos], item);
      if b.done {
        if b.ret == 1 { assert BurstAt(m, cells, r.cells, pos); }
      } else {
        var cells' := cells[pos := b.cell];
        VisitNoMerge(level, cells[pos], item);
        CellsAbove(m, cells', h, level + 1, b.item, pos);
        ReportsBurst(m, cells', h, level + 1, b.item);
        forall i: nat ensures BurstAt(m, cells, r.cells, i) <==> BurstAt(m, cells', r.cells, i) {
        }
      }
    }
  }

  /** While every flow has fewer than 2^28 packets, inserting a packet into the packed table reports a burst exactly if
      some cell above level 0 merged it after at least 7 merges before. */
  lemma RunReportsBurst(m: nat, home: Key -> nat, ps: seq<BurstPacket>, p: BurstPacket)
    requires Homes(m, home) && NoneOverflows(ps + [p])
    ensures RunPacked(m, home, ps + [p]).ret
         == if SomeBurst(m, RunCells(m, home, ps).cells, RunCells(m, home, ps + [p]).cells) then 1 else 0
  {
    PackedRefines(m, home, ps + [p]);
    assert (ps + [p])[..|ps|] == ps;
    assert home(p.key) < 8 * m;
    var cells, item := RunCells(m, home, ps).cells, Item(p.key, 1, p.time);
    assert RunCells(m, home, ps + [p]) == CellsFrom(m, cells, home(p.key), 0, item);
    ReportsBurst(m, cells, home(p.key), 0, item);
  }
}
