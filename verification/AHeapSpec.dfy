/** The AHeap table as a sequence of cells: four levels of 8m, 4m, 2m and m cells, one after the other, in which
    cell q of a level has cell q / 2 of the next as its parent. */
module AHeapSpec {
  import opened Bytes
  import opened Items

  function LevelStart(m: nat, level: nat): nat {
    if level == 0 then 0 else if level == 1 then 8 * m else if level == 2 then 12 * m else if level == 3 then 14 * m
      else 15 * m
  }

  function LevelSize(m: nat, level: nat): nat {
    if level == 0 then 8 * m else if level == 1 then 4 * m else if level == 2 then 2 * m else m
  }

  /** The index at which a branch that starts at level-0 cell `h` passes a level: halved once per level. */
  function Up(h: nat, level: nat): nat {
    if level == 0 then h else if level == 1 then h / 2 else if level == 2 then h / 2 / 2 else h / 2 / 2 / 2
  }

  /** The cell of a level that branch `h` passes through. */
  function Pos(m: nat, h: nat, level: nat): nat {
    LevelStart(m, level) + Up(h, level)
  }

  /** The level a cell belongs to. */
  function LevelOf(m: nat, i: nat): (level: nat)
    ensures level < 4
  {
    if i < 8 * m then 0 else if i < 12 * m then 1 else if i < 14 * m then 2 else 3
  }

  /** Branch `h` passes through cell i. */
  predicate Passes(m: nat, h: nat, i: nat) {
    exists l: nat :: l < 4 && i == Pos(m, h, l)
  }

  lemma PosInLevel(m: nat, h: nat, level: nat)
    requires h < 8 * m && level < 4
    ensures LevelStart(m, level) <= Pos(m, h, level) < LevelStart(m, level + 1) <= 15 * m
    ensures LevelOf(m, Pos(m, h, level)) == level
    ensures level < 3 ==> Up(h, level + 1) == Up(h, level) / 2
  {
  }

  /** The segments tile the table: sizes 8m, 4m, 2m, m, each cell in exactly one of them. */
  lemma LevelsTile(m: nat, i: nat, level: nat)
    requires i < 15 * m && level < 4
    ensures LevelStart(m, level + 1) == LevelStart(m, level) + LevelSize(m, level)
    ensures LevelStart(m, level) <= i < LevelStart(m, level + 1) <==> level == LevelOf(m, i)
  {
  }

  /** Halving once per level is dividing by 2^level. */
  lemma UpIsDivision(h: nat)
    ensures Up(h, 1) == h / 2 && Up(h, 2) == h / 4 && Up(h, 3) == h / 8
  {
  }

  /** The table after an insertion, and the item that fell out at the root, if any. */
  datatype Result = Result(cells: seq<Item>, lost: seq<Item>)

  /** An item entering `level` on branch `h` and travelling up from there. */
  function InsertFrom(mode: Mode, m: nat, cells: seq<Item>, h: nat, level: nat, item: Item): (r: Result)
    requires |cells| == 15 * m && h < 8 * m && level <= 4
    ensures |r.cells| == |cells|
    decreases 4 - level
  {
    if level == 4 then Result(cells, [item])
    else
      PosInLevel(m, h, level);
      var pos := Pos(m, h, level);
      var hit := Visit(mode, level, cells[pos], item);
      var cells' := cells[pos := hit.cell];
      if hit.done then Result(cells', []) else InsertFrom(mode, m, cells', h, level + 1, hit.item)
  }

  /** One level of an insertion turned `before` into `after` at cell `pos`, as `Visit` says. */
  predicate Visits(mode: Mode, level: nat, before: seq<Item>, pos: nat, item: Item, after: seq<Item>, done: bool,
                   carried: Item)
    requires pos < |before|
  {
    var hit := Visit(mode, level, before[pos], item);
    after == before[pos := hit.cell] && done == hit.done && (!done ==> carried == hit.item)
  }

  /** The insertion of `item` from `level` on is the step to `after`, followed by the way of `carried`. */
  ghost predicate Climbs(mode: Mode, m: nat, before: seq<Item>, h: nat, level: nat, item: Item, after: seq<Item>,
                         done: bool, carried: Item)
    requires h < 8 * m && level < 4
  {
    |before| == |after| == 15 * m
    && InsertFrom(mode, m, before, h, level, item).cells
       == if done then after else InsertFrom(mode, m, after, h, level + 1, carried).cells
  }

  /** One visited level is one step of the climb. */
  lemma VisitClimbs(mode: Mode, m: nat, before: seq<Item>, h: nat, level: nat, item: Item, after: seq<Item>,
                    done: bool, carried: Item)
    requires |before| == 15 * m && h < 8 * m && level < 4 && Pos(m, h, level) < |before|
    requires Visits(mode, level, before, Pos(m, h, level), item, after, done, carried)
    ensures Climbs(mode, m, before, h, level, item, after, done, carried)
  {
  }

  /** At the root the way ends. */
  lemma InsertAtRoot(mode: Mode, m: nat, cells: seq<Item>, h: nat, item: Item)
    requires |cells| == 15 * m && h < 8 * m
    ensures Pos(m, h, 3) < |cells|
    ensures InsertFrom(mode, m, cells, h, 3, item).cells
            == cells[Pos(m, h, 3) := Root(mode, cells[Pos(m, h, 3)], item).cell]
  {
  }

  /** An insertion from a level on leaves the branch's cells below alone. */
  lemma {:induction false} InsertAbove(mode: Mode, m: nat, cells: seq<Item>, h: nat, level: nat, item: Item, l: nat)
    requires |cells| == 15 * m && h < 8 * m && l < level <= 4 && Pos(m, h, l) < |cells|
    ensures InsertFrom(mode, m, cells, h, level, item).cells[Pos(m, h, l)] == cells[Pos(m, h, l)]
    decreases 4 - level
  {
    if level < 4 {
      PosInLevel(m, h, level);
      PosInLevel(m, h, l);
      var hit := Visit(mode, level, cells[Pos(m, h, level)], item);
      if !hit.done { InsertAbove(mode, m, cells[Pos(m, h, level) := hit.cell], h, level + 1, hit.item, l); }
    }
  }

  /** Nonempty cells hold keys of length n. */
  ghost predicate Sized(cells: seq<Item>, n: nat) {
    forall i | 0 <= i < |cells| && cells[i].count != 0 :: |cells[i].key| == n
  }

  /** The packets a table stores for key k, over all its cells. */
  function Stored(cells: seq<Item>, k: Key): nat {
    if cells == [] then 0 else Stored(cells[..|cells| - 1], k) + Weight(cells[|cells| - 1], k)
  }

  lemma {:induction false} StoredUpdate(cells: seq<Item>, i: nat, c: Item, k: Key)
    requires i < |cells|
    ensures Stored(cells[i := c], k) + Weight(cells[i], k) == Stored(cells, k) + Weight(c, k)
  {
    var n := |cells| - 1;
    if i == n {
      assert cells[i := c][..n] == cells[..n];
    } else {
      StoredUpdate(cells[..n], i, c, k);
      assert cells[i := c][..n] == cells[..n][i := c];
    }
  }

  lemma {:induction false} StoredAtLeast(cells: seq<Item>, i: nat, k: Key)
    requires i < |cells|
    ensures Weight(cells[i], k) <= Stored(cells, k)
  {
    if i < |cells| - 1 { StoredAtLeast(cells[..|cells| - 1], i, k); }
  }

  lemma {:induction false} StoredNone(cells: seq<Item>, k: Key)
    requires forall i | 0 <= i < |cells| :: Weight(cells[i], k) == 0
    ensures Stored(cells, k) == 0
  {
    if cells != [] { StoredNone(cells[..|cells| - 1], k); }
  }

  /** No insertion, in any mode, makes the stored counts of a key grow by more than the packets that came in. */
  lemma {:induction false} InsertNoGain(mode: Mode, m: nat, cells: seq<Item>, h: nat, level: nat, item: Item, k: Key)
    requires |cells| == 15 * m && h < 8 * m && level <= 4 && item.count > 0
    ensures var r := InsertFrom(mode, m, cells, h, level, item);
            Stored(r.cells, k) + Stored(r.lost, k) <= Stored(cells, k) + Weight(item, k)
    decreases 4 - level
  {
    if level < 4 {
      PosInLevel(m, h, level);
      var pos := Pos(m, h, level);
      var hit := Visit(mode, level, cells[pos], item);
      VisitNoGain(mode, level, cells[pos], item, k);
      StoredUpdate(cells, pos, hit.cell, k);
      if !hit.done { InsertNoGain(mode, m, cells[pos := hit.cell], h, level + 1, hit.item, k); }
    } else {
      assert [item][..0] == [];
    }
  }

  /** In base mode a packet is stored, or pushes what falls out at the root: nothing else is lost, from any table. */
  lemma {:induction false} InsertConserves(m: nat, cells: seq<Item>, h: nat, level: nat, item: Item, k: Key)
    returns (wraps: nat)
    requires |cells| == 15 * m && h < 8 * m && level <= 4 && item.count > 0 && (level <= 2 ==> item.count == 1)
    ensures var r := InsertFrom(Base(0), m, cells, h, level, item);
            Stored(r.cells, k) + Stored(r.lost, k) + U32 * wraps == Stored(cells, k) + Weight(item, k)
    decreases 4 - level
  {
    if level < 4 {
      PosInLevel(m, h, level);
      var pos := Pos(m, h, level);
      var hit := Visit(Base(0), level, cells[pos], item);
      wraps := VisitConserves(level, cells[pos], item, k);
      StoredUpdate(cells, pos, hit.cell, k);
      if !hit.done {
        var more := InsertConserves(m, cells[pos := hit.cell], h, level + 1, hit.item, k);
        wraps := wraps + more;
      }
    } else {
      assert [item][..0] == [];
      wraps := 0;
    }
  }

  // ----- the branch invariant

  /** `home` gives each key the level-0 cell its hash picks. */
  ghost predicate Homes(m: nat, home: Key -> nat) {
    forall k :: home(k) < 8 * m
  }

  /** An item in cell i lies on the branch of its own key. */
  predicate OnBranch(m: nat, home: Key -> nat, item: Item, i: nat) {
    item.count != 0 ==> Pos(m, home(item.key), LevelOf(m, i)) == i
  }

  ghost predicate OnBranches(m: nat, home: Key -> nat, cells: seq<Item>) {
    |cells| == 15 * m && forall i | 0 <= i < |cells| :: OnBranch(m, home, cells[i], i)
  }

  /** Two keys that meet at a level share the rest of their branches. */
  lemma SameAbove(m: nat, g: nat, h: nat, level: nat)
    requires g < 8 * m && h < 8 * m && level < 4 && Pos(m, g, level) == Pos(m, h, level)
    ensures Pos(m, g, level + 1) == Pos(m, h, level + 1) || level == 3
  {
    PosInLevel(m, g, level);
    PosInLevel(m, h, level);
  }

  /** A level only moves items that belong to the branch through it. */
  lemma VisitOnBranch(mode: Mode, m: nat, home: Key -> nat, level: nat, cell: Item, item: Item, pos: nat)
    requires LevelOf(m, pos) == level && OnBranch(m, home, cell, pos) && Pos(m, home(item.key), level) == pos
    ensures var hit := Visit(mode, level, cell, item);
            OnBranch(m, home, hit.cell, pos) && (!hit.done ==> Pos(m, home(hit.item.key), level) == pos)
  {
    VisitKeys(mode, level, cell, item, k => Pos(m, home(k), level) == pos);
  }

  /** An insertion on a branch of the item's own keeps everything on its branch, evicted items included. */
  lemma {:induction false} InsertKeepsBranches(mode: Mode, m: nat, home: Key -> nat, cells: seq<Item>, h: nat,
                                               level: nat, item: Item)
    requires Homes(m, home) && OnBranches(m, home, cells) && h < 8 * m && level <= 4
    requires level < 4 ==> Pos(m, home(item.key), level) == Pos(m, h, level)
    ensures OnBranches(m, home, InsertFrom(mode, m, cells, h, level, item).cells)
    decreases 4 - level
  {
    if level < 4 {
      PosInLevel(m, h, level);
      var pos := Pos(m, h, level);
      var hit := Visit(mode, level, cells[pos], item);
      assert OnBranch(m, home, cells[pos], pos);
      VisitOnBranch(mode, m, home, level, cells[pos], item, pos);
      if !hit.done {
        SameAbove(m, home(hit.item.key), h, level);
        InsertKeepsBranches(mode, m, home, cells[pos := hit.cell], h, level + 1, hit.item);
      }
    }
  }

  /** What the four cells of a branch store for key k. */
  function BranchSum(m: nat, cells: seq<Item>, h: nat, k: Key): nat
    requires |cells| == 15 * m && h < 8 * m
  {
    PosInLevel(m, h, 0); PosInLevel(m, h, 1); PosInLevel(m, h, 2); PosInLevel(m, h, 3);
    Weight(cells[Pos(m, h, 0)], k) + Weight(cells[Pos(m, h, 1)], k)
    + Weight(cells[Pos(m, h, 2)], k) + Weight(cells[Pos(m, h, 3)], k)
  }

  lemma OffBranchIsOther(m: nat, home: Key -> nat, item: Item, i: nat, k: Key)
    requires OnBranch(m, home, item, i) && i != Pos(m, home(k), LevelOf(m, i))
    ensures Weight(item, k) == 0
  {
  }

  /** A key is stored in at most one cell per level, on its branch; so its branch holds all there is of it. */
  lemma BranchHoldsAll(m: nat, home: Key -> nat, cells: seq<Item>, k: Key)
    requires Homes(m, home) && OnBranches(m, home, cells)
    ensures BranchSum(m, cells, home(k), k) == Stored(cells, k)
  {
    var h := home(k);
    PosInLevel(m, h, 0); PosInLevel(m, h, 1); PosInLevel(m, h, 2); PosInLevel(m, h, 3);
    var p0, p1, p2, p3 := Pos(m, h, 0), Pos(m, h, 1), Pos(m, h, 2), Pos(m, h, 3);
    var c0 := cells[p0 := EMPTY];
    var c1 := c0[p1 := EMPTY];
    var c2 := c1[p2 := EMPTY];
    var c3 := c2[p3 := EMPTY];
    StoredUpdate(cells, p0, EMPTY, k);
    StoredUpdate(c0, p1, EMPTY, k);
    StoredUpdate(c1, p2, EMPTY, k);
    StoredUpdate(c2, p3, EMPTY, k);
    forall i | 0 <= i < |c3| ensures Weight(c3[i], k) == 0 {
      if i != p0 && i != p1 && i != p2 && i != p3 {
        assert OnBranch(m, home, cells[i], i);
        OffBranchIsOther(m, home, cells[i], i, k);
      }
    }
    StoredNone(c3, k);
  }
}
