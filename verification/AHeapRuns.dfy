/** Whole runs of the AHeap table, over any stream of packets and any mix of insertion modes. */
module AHeapRuns {
  import opened Bytes
  import opened Items
  import opened AHeapSpec

  datatype Packet = Packet(mode: Mode, key: Key, time: nat)

  /** An item that fell out of the table at root cell `root`. */
  datatype Lost = Lost(item: Item, root: nat)

  datatype World = World(cells: seq<Item>, lost: seq<Lost>)

  function Fallen(items: seq<Item>, root: nat): seq<Lost> {
    seq(|items|, i requires 0 <= i < |items| => Lost(items[i], root))
  }

  /** The table and all items lost after inserting the packets in turn, each with counter 1. */
  function Run(m: nat, home: Key -> nat, ps: seq<Packet>): (w: World)
    ensures |w.cells| == 15 * m
  {
    if ps == [] then World(seq(15 * m, _ => EMPTY), [])
    else
      var w := Run(m, home, ps[..|ps| - 1]);
      var p := ps[|ps| - 1];
      if home(p.key) < 8 * m then
        var r := InsertFrom(p.mode, m, w.cells, home(p.key), 0, Item(p.key, 1, p.time));
        World(r.cells, w.lost + Fallen(r.lost, Pos(m, home(p.key), 3)))
      else w
  }

  /** How many packets of the stream carry key k. */
  function Packets(ps: seq<Packet>, k: Key): nat {
    if ps == [] then 0 else Packets(ps[..|ps| - 1], k) + if ps[|ps| - 1].key == k then 1 else 0
  }

  function LostSum(lost: seq<Lost>, k: Key): nat {
    if lost == [] then 0 else LostSum(lost[..|lost| - 1], k) + Weight(lost[|lost| - 1].item, k)
  }

  lemma {:induction false} LostSumFallen(lost: seq<Lost>, items: seq<Item>, root: nat, k: Key)
    ensures LostSum(lost + Fallen(items, root), k) == LostSum(lost, k) + Stored(items, k)
  {
    if items == [] {
      assert lost + Fallen(items, root) == lost;
    } else {
      var n := |items| - 1;
      LostSumFallen(lost, items[..n], root, k);
      assert lost + Fallen(items, root) == lost + Fallen(items[..n], root) + [Lost(items[n], root)];
    }
  }

  /** No over-estimation: whatever the modes, stored and lost counts of a key never exceed its packets. */
  lemma {:induction false} NoOverEstimate(m: nat, home: Key -> nat, ps: seq<Packet>, k: Key)
    ensures var w := Run(m, home, ps); Stored(w.cells, k) + LostSum(w.lost, k) <= Packets(ps, k)
  {
    if ps == [] {
      StoredNone(Run(m, home, ps).cells, k);
    } else {
      var w, p := Run(m, home, ps[..|ps| - 1]), ps[|ps| - 1];
      NoOverEstimate(m, home, ps[..|ps| - 1], k);
      if home(p.key) < 8 * m {
        var item, h := Item(p.key, 1, p.time), home(p.key);
        InsertNoGain(p.mode, m, w.cells, h, 0, item, k);
        LostSumFallen(w.lost, InsertFrom(p.mode, m, w.cells, h, 0, item).lost, Pos(m, h, 3), k);
      }
    }
  }

  ghost predicate AllBase(ps: seq<Packet>) {
    forall i | 0 <= i < |ps| :: ps[i].mode == Base(0)
  }

  /** Conservation: in base mode every packet of a key is stored or was lost at the root, up to counters that
      wrapped. */
  lemma {:induction false} Conservation(m: nat, home: Key -> nat, ps: seq<Packet>, k: Key) returns (wraps: nat)
    requires Homes(m, home) && AllBase(ps)
    ensures var w := Run(m, home, ps); Stored(w.cells, k) + LostSum(w.lost, k) + U32 * wraps == Packets(ps, k)
    ensures Packets(ps, k) < U32 ==> wraps == 0
  {
    wraps := 0;
    if ps == [] {
      StoredNone(Run(m, home, ps).cells, k);
    } else {
      var w, p := Run(m, home, ps[..|ps| - 1]), ps[|ps| - 1];
      var item, h := Item(p.key, 1, p.time), home(p.key);
      assert h < 8 * m;
      var before := Conservation(m, home, ps[..|ps| - 1], k);
      var now := InsertConserves(m, w.cells, h, 0, item, k);
      wraps := before + now;
      LostSumFallen(w.lost, InsertFrom(p.mode, m, w.cells, h, 0, item).lost, Pos(m, h, 3), k);
    }
  }

  // ----- counters that cannot wrap

  /** The counters on an insertion's way cannot wrap. */
  ghost predicate Fits(cells: seq<Item>, item: Item) {
    forall k :: Stored(cells, k) + Weight(item, k) < U32
  }

  lemma VisitFits(mode: Mode, m: nat, cells: seq<Item>, h: nat, level: nat, item: Item)
    requires |cells| == 15 * m && h < 8 * m && level < 4 && item.count > 0 && Fits(cells, item)
    ensures Pos(m, h, level) < |cells|
    ensures var hit := Visit(mode, level, cells[Pos(m, h, level)], item);
            !hit.done ==> Fits(cells[Pos(m, h, level) := hit.cell], hit.item)
    ensures var cell := cells[Pos(m, h, level)]; cell.key == item.key ==> cell.count + item.count < U32
  {
    PosInLevel(m, h, level);
    var pos := Pos(m, h, level);
    var hit := Visit(mode, level, cells[pos], item);
    if !hit.done {
      forall k ensures Stored(cells[pos := hit.cell], k) + Weight(hit.item, k) < U32 {
        VisitNoGain(mode, level, cells[pos], item, k);
        StoredUpdate(cells, pos, hit.cell, k);
        assert Stored(cells, k) + Weight(item, k) < U32;
      }
    }
    StoredAtLeast(cells, pos, item.key);
    assert Stored(cells, item.key) + Weight(item, item.key) < U32;
  }

  /** No flow has so many packets that its counters could wrap; the stream as a whole may be longer. */
  ghost predicate NoneWraps(ps: seq<Packet>) {
    forall k {:trigger Packets(ps, k)} :: Packets(ps, k) < U32
  }

  lemma NoneWrapsFront(ps: seq<Packet>)
    requires ps != [] && NoneWraps(ps)
    ensures NoneWraps(ps[..|ps| - 1])
  {
    var front := ps[..|ps| - 1];
    forall k ensures Packets(front, k) < U32 { assert Packets(ps, k) < U32; }
  }

  lemma RunFits(m: nat, home: Key -> nat, ps: seq<Packet>, p: Packet)
    requires NoneWraps(ps + [p])
    ensures Fits(Run(m, home, ps).cells, Item(p.key, 1, p.time))
  {
    forall k ensures Stored(Run(m, home, ps).cells, k) + Weight(Item(p.key, 1, p.time), k) < U32 {
      NoOverEstimate(m, home, ps, k);
      assert (ps + [p])[..|ps|] == ps && Packets(ps + [p], k) < U32;
    }
  }

  // ----- the winner at the root

  /** The modes whose root compares weights. */
  predicate ByWeight(mode: Mode) {
    mode.Base? || mode.Threshold?
  }

  /** The counter of `x` is larger than that of `y`; or they are equal, and the time of `x` is not before that of
      `y`. */
  ghost predicate Outweighs(x: Item, y: Item) {
    x.count > y.count || (x.count == y.count && x.time >= y.time)
  }

  /** The root cell only gets heavier, and is at least as heavy as what it lets go. */
  lemma {:induction false} InsertDominates(mode: Mode, m: nat, cells: seq<Item>, h: nat, level: nat, item: Item)
    requires |cells| == 15 * m && h < 8 * m && level <= 3 && item.count > 0 && Fits(cells, item) && ByWeight(mode)
    ensures Pos(m, h, 3) < 15 * m
    ensures var r := InsertFrom(mode, m, cells, h, level, item);
            Outweighs(r.cells[Pos(m, h, 3)], cells[Pos(m, h, 3)])
            && (forall i | 14 * m <= i < 15 * m && i != Pos(m, h, 3) :: r.cells[i] == cells[i])
            && (forall i | 0 <= i < |r.lost| :: Outweighs(r.cells[Pos(m, h, 3)], r.lost[i]))
    decreases 3 - level
  {
    PosInLevel(m, h, level);
    PosInLevel(m, h, 3);
    VisitFits(mode, m, cells, h, level, item);
    if level < 3 {
      var pos := Pos(m, h, level);
      var hit := Visit(mode, level, cells[pos], item);
      VisitNoGain(mode, level, cells[pos], item, item.key);
      if !hit.done { InsertDominates(mode, m, cells[pos := hit.cell], h, level + 1, hit.item); }
    }
  }

  /** Every root cell of `a` is at least as heavy as that of `b`. */
  ghost predicate RootsAtLeast(m: nat, a: seq<Item>, b: seq<Item>) {
    |a| == |b| == 15 * m && forall i | 14 * m <= i < 15 * m :: Outweighs(a[i], b[i])
  }

  /** Every lost item is outweighed by the root cell it was lost through. */
  ghost predicate LossesDominated(m: nat, w: World) {
    |w.cells| == 15 * m
    && forall l | 0 <= l < |w.lost| ::
         14 * m <= w.lost[l].root < 15 * m && Outweighs(w.cells[w.lost[l].root], w.lost[l].item)
  }

  lemma WinnerStep(m: nat, home: Key -> nat, ps: seq<Packet>, p: Packet)
    requires Homes(m, home) && NoneWraps(ps + [p]) && ByWeight(p.mode) && LossesDominated(m, Run(m, home, ps))
    ensures var w, w' := Run(m, home, ps), Run(m, home, ps + [p]);
            RootsAtLeast(m, w'.cells, w.cells) && LossesDominated(m, w')
  {
    var w, h := Run(m, home, ps), home(p.key);
    assert (ps + [p])[..|ps|] == ps;
    assert h < 8 * m;
    PosInLevel(m, h, 3);
    RunFits(m, home, ps, p);
    InsertDominates(p.mode, m, w.cells, h, 0, Item(p.key, 1, p.time));
  }

  /** Winner dominance: root cells never get lighter, and outweigh everything that was lost through them. */
  lemma {:induction false} WinnerDominance(m: nat, home: Key -> nat, ps: seq<Packet>, n: nat)
    requires Homes(m, home) && NoneWraps(ps) && n <= |ps| && forall i | 0 <= i < |ps| :: ByWeight(ps[i].mode)
    ensures RootsAtLeast(m, Run(m, home, ps).cells, Run(m, home, ps[..n]).cells)
    ensures LossesDominated(m, Run(m, home, ps))
  {
    if ps == [] {
      assert ps[..n] == ps;
    } else {
      var last := |ps| - 1;
      assert ps[..last] + [ps[last]] == ps;
      NoneWrapsFront(ps);
      WinnerDominance(m, home, ps[..last], if n == |ps| then last else n);
      WinnerStep(m, home, ps[..last], ps[last]);
      if n == |ps| { assert ps[..n] == ps; } else { assert ps[..last][..n] == ps[..n]; }
    }
  }

  // ----- time order

  /** The first of the two children of a level-1 or level-2 cell. */
  function FirstChild(m: nat, i: nat): nat
    requires 8 * m <= i < 14 * m
  {
    if i < 12 * m then 2 * (i - 8 * m) else 8 * m + 2 * (i - 12 * m)
  }

  predicate Newer(a: Item, b: Item) {
    a.count != 0 && a.time >= b.time
  }

  /** A nonempty cell above level 0 has a nonempty child that is at least as recent. */
  predicate HasNewerChild(m: nat, cells: seq<Item>, i: nat)
    requires |cells| == 15 * m && 8 * m <= i < 14 * m
  {
    cells[i].count != 0 ==> Newer(cells[FirstChild(m, i)], cells[i]) || Newer(cells[FirstChild(m, i) + 1], cells[i])
  }

  ghost predicate TimeOrdered(m: nat, cells: seq<Item>) {
    |cells| == 15 * m && forall i | 8 * m <= i < 14 * m :: HasNewerChild(m, cells, i)
  }

  /** What a level does in time mode, if counters do not wrap. */
  lemma VisitByTime(level: nat, cell: Item, item: Item)
    requires level < 2 && item.count > 0 && (cell.key == item.key ==> cell.count + item.count < U32)
    ensures var hit := Visit(ByTime, level, cell, item);
            hit.cell.count != 0 && (cell.count != 0 ==> hit.cell.time >= cell.time)
            && (hit.cell.time <= item.time || (cell.count != 0 && hit.cell.time == cell.time))
            && (!hit.done ==> hit.item.time <= hit.cell.time)
  {
  }

  /** Replacing a level-0 or level-1 cell by a later one disturbs no parent; above level 0 it needs a newer child
      itself. */
  lemma ReplaceKeepsOrder(m: nat, cells: seq<Item>, pos: nat, c: Item)
    requires TimeOrdered(m, cells) && pos < 15 * m
    requires pos < 12 * m ==> c.count != 0 && (cells[pos].count != 0 ==> c.time >= cells[pos].time)
    requires 8 * m <= pos < 14 * m && c.count != 0 ==>
               Newer(cells[FirstChild(m, pos)], c) || Newer(cells[FirstChild(m, pos) + 1], c)
    ensures TimeOrdered(m, cells[pos := c])
  {
    var cells' := cells[pos := c];
    forall i | 8 * m <= i < 14 * m ensures HasNewerChild(m, cells', i) {
      assert HasNewerChild(m, cells, i);
    }
  }

  /** One insertion in time mode. The cell just left below holds an item at least as recent as the one travelling. */
  lemma {:induction false} InsertKeepsOrder(m: nat, cells: seq<Item>, h: nat, level: nat, item: Item)
    requires TimeOrdered(m, cells) && h < 8 * m && level <= 4 && item.count > 0 && Fits(cells, item)
    requires 0 < level < 3 ==> Pos(m, h, level - 1) < 15 * m && Newer(cells[Pos(m, h, level - 1)], item)
    ensures TimeOrdered(m, InsertFrom(ByTime, m, cells, h, level, item).cells)
    decreases 4 - level
  {
    if level < 4 {
      PosInLevel(m, h, level);
      var pos := Pos(m, h, level);
      var hit := Visit(ByTime, level, cells[pos], item);
      VisitFits(ByTime, m, cells, h, level, item);
      VisitNoGain(ByTime, level, cells[pos], item, item.key);
      if level < 2 { VisitByTime(level, cells[pos], item); }
      if 0 < level < 3 {
        assert HasNewerChild(m, cells, pos);
        PathChild(m, h, level);
      }
      ReplaceKeepsOrder(m, cells, pos, hit.cell);
      if !hit.done { InsertKeepsOrder(m, cells[pos := hit.cell], h, level + 1, hit.item); }
    }
  }

  lemma PathChild(m: nat, h: nat, level: nat)
    requires h < 8 * m && 0 < level < 3
    ensures 8 * m <= Pos(m, h, level) < 14 * m
    ensures Pos(m, h, level - 1) == FirstChild(m, Pos(m, h, level))
            || Pos(m, h, level - 1) == FirstChild(m, Pos(m, h, level)) + 1
  {
  }

  /** Weak time order: under time-based insertion each nonempty level-1 and level-2 cell has a nonempty child that is at
      least as recent, whatever the packet times are. */
  lemma {:induction false} TimeOrder(m: nat, home: Key -> nat, ps: seq<Packet>)
    requires Homes(m, home) && NoneWraps(ps) && forall i | 0 <= i < |ps| :: ps[i].mode == ByTime
    ensures TimeOrdered(m, Run(m, home, ps).cells)
  {
    if ps != [] {
      var last := |ps| - 1;
      var w, p := Run(m, home, ps[..last]), ps[last];
      assert ps[..last] + [p] == ps;
      NoneWrapsFront(ps);
      TimeOrder(m, home, ps[..last]);
      RunFits(m, home, ps[..last], p);
      assert home(p.key) < 8 * m;
      InsertKeepsOrder(m, w.cells, home(p.key), 0, Item(p.key, 1, p.time));
    }
  }
}
