/** Who stays and who leaves: what an insertion does to each cell of its branch, mode by mode, in counts and times; and
    which residents nothing can drive out. */
module Residents {
  import opened Bytes
  import opened Items
  import opened AHeapSpec
  import opened AHeapRuns

  /** The cell at which a branch that starts at level-0 cell `h` meets a level. */
  ghost function Place(m: nat, h: nat, level: nat): nat {
    if level == 0 then h else if level == 1 then 8 * m + h / 2 else if level == 2 then 12 * m + h / 4
    else 14 * m + h / 8
  }

  lemma PlaceIsPos(m: nat, h: nat, level: nat)
    requires h < 8 * m && level < 4
    ensures Place(m, h, level) == Pos(m, h, level) < 15 * m
  {
    PosInLevel(m, h, level);
  }

  /** The resident of a level that an insertion meets. */
  ghost function Resident(m: nat, cells: seq<Item>, h: nat, level: nat): Item
    requires |cells| == 15 * m && h < 8 * m && level < 4
  {
    PlaceIsPos(m, h, level);
    cells[Place(m, h, level)]
  }

  /** The cell has an item of another key. */
  ghost predicate OtherKey(m: nat, cells: seq<Item>, h: nat, level: nat, item: Item)
    requires |cells| == 15 * m && h < 8 * m && level < 4
  {
    Resident(m, cells, h, level).count != 0 && Resident(m, cells, h, level).key != item.key
  }

  /** What the cell that an insertion meets at a level holds afterwards. */
  ghost function After(mode: Mode, m: nat, cells: seq<Item>, h: nat, level: nat, item: Item): Item
    requires |cells| == 15 * m && h < 8 * m && level < 4
  {
    Resident(m, InsertFrom(mode, m, cells, h, level, item).cells, h, level)
  }

  // ----- one level, whatever the mode

  lemma VisitStays(mode: Mode, m: nat, cells: seq<Item>, h: nat, level: nat, item: Item)
    requires |cells| == 15 * m && h < 8 * m && level < 4 && Pos(m, h, level) < 15 * m
    ensures InsertFrom(mode, m, cells, h, level, item).cells[Pos(m, h, level)]
         == Visit(mode, level, cells[Pos(m, h, level)], item).cell
  {
    var pos := Pos(m, h, level);
    var hit := Visit(mode, level, cells[pos], item);
    if !hit.done { InsertAbove(mode, m, cells[pos := hit.cell], h, level + 1, hit.item, level); }
  }

  /** The cell an insertion leaves behind is the one `Visit` makes of it. */
  lemma AfterIsVisit(mode: Mode, m: nat, cells: seq<Item>, h: nat, level: nat, item: Item)
    requires |cells| == 15 * m && h < 8 * m && level < 4
    ensures After(mode, m, cells, h, level, item) == Visit(mode, level, Resident(m, cells, h, level), item).cell
  {
    PlaceIsPos(m, h, level);
    VisitStays(mode, m, cells, h, level, item);
  }

  /** An empty cell takes the item, and the insertion ends. */
  lemma EmptyTakes(mode: Mode, m: nat, cells: seq<Item>, h: nat, level: nat, item: Item)
    requires |cells| == 15 * m && h < 8 * m && level < 4 && Resident(m, cells, h, level).count == 0
    ensures InsertFrom(mode, m, cells, h, level, item) == Result(cells[Place(m, h, level) := item], [])
  {
    PlaceIsPos(m, h, level);
  }

  /** A cell of the same key keeps the later time; its counter grows by 1, or by the item's counter where the mode
      carries it, cut to 32 bits; and the insertion ends. */
  lemma SameKeyMerges(mode: Mode, m: nat, cells: seq<Item>, h: nat, level: nat, item: Item)
    requires |cells| == 15 * m && h < 8 * m && level < 4
    requires var c := Resident(m, cells, h, level); c.count != 0 && c.key == item.key
    ensures var c, x := Resident(m, cells, h, level), After(mode, m, cells, h, level, item);
            InsertFrom(mode, m, cells, h, level, item) == Result(cells[Place(m, h, level) := x], [])
            && x.key == c.key && x.time >= c.time && x.time >= item.time && (x.time == c.time || x.time == item.time)
            && x.count == (c.count + if (level < 2 && (mode.Threshold? || mode.Recent?))
               || (level == 3 && !mode.ByTime?)
                                     then item.count else 1) % 0x1_0000_0000
  {
    PlaceIsPos(m, h, level);
    AfterIsVisit(mode, m, cells, h, level, item);
  }

  lemma OtherVisit(mode: Mode, level: nat, cell: Item, item: Item)
    requires cell.count != 0 && cell.key != item.key
    ensures var hit := Visit(mode, level, cell, item);
            hit == Hit(item, cell, false) || hit == Hit(cell, item, false)
  {
  }

  /** A cell of another key holds one of the two afterwards, and the other goes on to the next level. */
  lemma OtherGoesOn(mode: Mode, m: nat, cells: seq<Item>, h: nat, level: nat, item: Item)
    requires |cells| == 15 * m && h < 8 * m && level < 4 && OtherKey(m, cells, h, level, item)
    ensures var c, x := Resident(m, cells, h, level), After(mode, m, cells, h, level, item);
            (x == c || x == item)
            && InsertFrom(mode, m, cells, h, level, item)
               == InsertFrom(mode, m, cells[Place(m, h, level) := x], h, level + 1, if x == c then item else c)
  {
    PlaceIsPos(m, h, level);
    AfterIsVisit(mode, m, cells, h, level, item);
    OtherVisit(mode, level, Resident(m, cells, h, level), item);
  }

  /** Behind the root it is lost. */
  lemma LostBehindRoot(mode: Mode, m: nat, cells: seq<Item>, h: nat, item: Item)
    requires |cells| == 15 * m && h < 8 * m && OtherKey(m, cells, h, 3, item)
    ensures var c, x := Resident(m, cells, h, 3), After(mode, m, cells, h, 3, item);
            InsertFrom(mode, m, cells, h, 3, item)
              == Result(cells[Place(m, h, 3) := x], [if x == c then item else c])
  {
    OtherGoesOn(mode, m, cells, h, 3, item);
    PlaceIsPos(m, h, 3);
  }

  // ----- who stays, mode by mode

  /** Level 2 always gives its cell away. */
  lemma LevelTwoKicks(mode: Mode, m: nat, cells: seq<Item>, h: nat, item: Item)
    requires |cells| == 15 * m && h < 8 * m && OtherKey(m, cells, h, 2, item)
    ensures After(mode, m, cells, h, 2, item) == item
  {
    AfterIsVisit(mode, m, cells, h, 2, item);
  }

  /** In base mode without aging a resident of level 0 or 1 stays exactly if its counter is not 1. */
  lemma BaseStays(m: nat, cells: seq<Item>, h: nat, level: nat, item: Item)
    requires |cells| == 15 * m && h < 8 * m && level < 2 && OtherKey(m, cells, h, level, item)
    ensures var c := Resident(m, cells, h, level);
            After(Base(0), m, cells, h, level, item) == if c.count != 1 then c else item
  {
    AfterIsVisit(Base(0), m, cells, h, level, item);
  }

  /** The time since the resident's, on 32-bit clocks: a time that lies ahead is taken for one from before the wrap. */
  ghost function Age(c: Item, item: Item): int {
    if c.time <= item.time then item.time - c.time else item.time - c.time + 0x1_0000_0000
  }

  lemma AgeIsSub(c: Item, item: Item)
    requires c.time < 0x1_0000_0000 && item.time < 0x1_0000_0000
    ensures Age(c, item) == Sub32(item.time, c.time)
  {
  }

  /** With aging it stays exactly if it is not older than the limit. */
  lemma AgingStays(aging: nat, m: nat, cells: seq<Item>, h: nat, level: nat, item: Item)
    requires |cells| == 15 * m && h < 8 * m && level < 2 && OtherKey(m, cells, h, level, item) && aging > 0
    requires Resident(m, cells, h, level).time < 0x1_0000_0000 && item.time < 0x1_0000_0000
    ensures var c := Resident(m, cells, h, level);
            After(Base(aging), m, cells, h, level, item) == if Age(c, item) <= aging then c else item
  {
    AfterIsVisit(Base(aging), m, cells, h, level, item);
    AgeIsSub(Resident(m, cells, h, level), item);
  }

  /** In threshold mode a resident of level 0 or 1 stays exactly if it is above the counter threshold and younger than
      the time threshold. */
  lemma ThresholdStays(t: nat, n: nat, m: nat, cells: seq<Item>, h: nat, level: nat, item: Item)
    requires |cells| == 15 * m && h < 8 * m && level < 2 && OtherKey(m, cells, h, level, item)
    requires Resident(m, cells, h, level).time < 0x1_0000_0000 && item.time < 0x1_0000_0000
    ensures var c := Resident(m, cells, h, level);
            After(Threshold(t, n), m, cells, h, level, item) == if c.count > n && Age(c, item) < t then c else item
  {
    AfterIsVisit(Threshold(t, n), m, cells, h, level, item);
    AgeIsSub(Resident(m, cells, h, level), item);
  }

  /** In recent mode a resident of any level but level 2 stays exactly if it is younger than the threshold. */
  lemma RecentStays(t: nat, m: nat, cells: seq<Item>, h: nat, level: nat, item: Item)
    requires |cells| == 15 * m && h < 8 * m && level < 4 && level != 2 && OtherKey(m, cells, h, level, item)
    requires Resident(m, cells, h, level).time < 0x1_0000_0000 && item.time < 0x1_0000_0000
    ensures var c := Resident(m, cells, h, level);
            After(Recent(t), m, cells, h, level, item) == if Age(c, item) < t then c else item
  {
    AfterIsVisit(Recent(t), m, cells, h, level, item);
    AgeIsSub(Resident(m, cells, h, level), item);
  }

  /** In time mode a resident of any level but level 2 stays exactly if the item is not later. */
  lemma TimeStays(m: nat, cells: seq<Item>, h: nat, level: nat, item: Item)
    requires |cells| == 15 * m && h < 8 * m && level < 4 && level != 2 && OtherKey(m, cells, h, level, item)
    ensures var c := Resident(m, cells, h, level);
            After(ByTime, m, cells, h, level, item) == if item.time <= c.time then c else item
  {
    AfterIsVisit(ByTime, m, cells, h, level, item);
  }

  /** Where the root compares weights, it changes hands exactly for an item that is heavier, or equally heavy and not
      older. */
  lemma RootChangesHands(mode: Mode, m: nat, cells: seq<Item>, h: nat, item: Item)
    requires |cells| == 15 * m && h < 8 * m && OtherKey(m, cells, h, 3, item) && (mode.Base? || mode.Threshold?)
    ensures var c := Resident(m, cells, h, 3);
            After(mode, m, cells, h, 3, item)
              == if item.count > c.count || (item.count == c.count && item.time >= c.time) then item else c
  {
    AfterIsVisit(mode, m, cells, h, 3, item);
  }

  // ----- whole runs

  /** An insertion leaves a cell as it is, or does to it what its level does with some nonempty item `x`, which at level
      0 is the arriving one. */
  lemma {:induction false} Touched(mode: Mode, m: nat, cells: seq<Item>, h: nat, level: nat, item: Item, i: nat)
    returns (x: Item, touched: bool)
    requires |cells| == 15 * m && h < 8 * m && level <= 4 && item.count > 0 && i < 15 * m
    ensures x.count > 0 && (touched && Fits(cells, item) && cells[i].key == x.key ==> cells[i].count + x.count < U32)
    ensures InsertFrom(mode, m, cells, h, level, item).cells[i]
         == if touched then Visit(mode, LevelOf(m, i), cells[i], x).cell else cells[i]
    ensures touched ==> level <= LevelOf(m, i) && (level == LevelOf(m, i) ==> x == item)
    decreases 4 - level
  {
    x, touched := item, false;
    if level < 4 {
      PosInLevel(m, h, level);
      var pos := Pos(m, h, level);
      var hit := Visit(mode, level, cells[pos], item);
      if Fits(cells, item) { VisitFits(mode, m, cells, h, level, item); }
      if i == pos {
        touched := true;
        if !hit.done { InsertAbove(mode, m, cells[pos := hit.cell], h, level + 1, hit.item, level); }
      } else if !hit.done {
        VisitNoGain(mode, level, cells[pos], item, item.key);
        x, touched := Touched(mode, m, cells[pos := hit.cell], h, level + 1, hit.item, i);
      }
    }
  }

  /** What became of one cell: nothing, or what its level does with a nonempty item whose counter does not wrap there;
      at level 0 the item has time `now`. */
  ghost predicate Becomes(mode: Mode, level: nat, c: Item, c': Item, now: nat) {
    c' == c || exists x: Item :: x.count > 0 && c' == Visit(mode, level, c, x).cell
                                 && (c.key == x.key ==> c.count + x.count < U32) && (level == 0 ==> x.time == now)
  }

  /** One more packet of a run, as seen by cell i. */
  lemma RunTouched(m: nat, home: Key -> nat, ps: seq<Packet>, p: Packet, i: nat)
    requires Homes(m, home) && i < 15 * m && NoneWraps(ps + [p])
    ensures |Run(m, home, ps).cells| == |Run(m, home, ps + [p]).cells| == 15 * m
    ensures Becomes(p.mode, LevelOf(m, i), Run(m, home, ps).cells[i], Run(m, home, ps + [p]).cells[i], p.time)
  {
    var w, item := Run(m, home, ps), Item(p.key, 1, p.time);
    assert home(p.key) < 8 * m;
    assert (ps + [p])[..|ps|] == ps;
    RunFits(m, home, ps, p);
    var x, touched := Touched(p.mode, m, w.cells, home(p.key), 0, item, i);
  }

  lemma {:induction false} NoneWrapsTake(ps: seq<Packet>, j: nat)
    requires NoneWraps(ps) && j <= |ps|
    ensures NoneWraps(ps[..j])
    decreases |ps|
  {
    if j == |ps| {
      assert ps[..j] == ps;
    } else {
      NoneWrapsFront(ps);
      NoneWrapsTake(ps[..|ps| - 1], j);
      assert ps[..|ps| - 1][..j] == ps[..j];
    }
  }

  /** `hist[j]` is what cell i holds after j packets. */
  ghost predicate IsHistory(m: nat, home: Key -> nat, ps: seq<Packet>, i: nat, hist: seq<Item>)
    requires i < 15 * m
  {
    |hist| == |ps| + 1 && forall j | 0 <= j <= |ps| :: hist[j] == Run(m, home, ps[..j]).cells[i]
  }

  /** Packet j leaves the cell alone or does to it what its mode says. */
  ghost predicate Moves(ps: seq<Packet>, level: nat, hist: seq<Item>, j: nat)
    requires j < |ps| && |hist| == |ps| + 1
  {
    Becomes(ps[j].mode, level, hist[j], hist[j + 1], ps[j].time)
  }

  ghost predicate Unfolds(ps: seq<Packet>, level: nat, hist: seq<Item>) {
    |hist| == |ps| + 1 && hist[0].count == 0 && forall j: nat | j < |ps| :: Moves(ps, level, hist, j)
  }

  lemma RunUnfolds(m: nat, home: Key -> nat, ps: seq<Packet>, i: nat) returns (hist: seq<Item>)
    requires Homes(m, home) && i < 15 * m && NoneWraps(ps)
    ensures IsHistory(m, home, ps, i, hist) && Unfolds(ps, LevelOf(m, i), hist)
  {
    hist := seq(|ps| + 1, j requires 0 <= j <= |ps| => Run(m, home, ps[..j]).cells[i]);
    forall j: nat | j < |ps| ensures Moves(ps, LevelOf(m, i), hist, j) {
      NoneWrapsTake(ps, j + 1);
      assert ps[..j] + [ps[j]] == ps[..j + 1];
      RunTouched(m, home, ps[..j], ps[j], i);
    }
  }

  /** Cell i is at level 0, 1 or 3. */
  ghost predicate NotKicked(m: nat, i: nat) {
    i < 12 * m || 14 * m <= i < 15 * m
  }

  // ----- recent mode

  /** On 32-bit clocks the time of `c'` is at least t ahead of that of `c`. */
  ghost predicate AheadBy(c: Item, c': Item, t: nat) {
    (c'.time - c.time) % 0x1_0000_0000 >= t
  }

  lemma ReplaceStep(level: nat, c: Item, c': Item, now: nat, t: nat)
    requires level < 4 && level != 2 && Becomes(Recent(t), level, c, c', now)
    ensures c.count != 0 && c'.key != c.key ==> AheadBy(c, c', t)
  {
  }

  lemma ReplaceHistory(ps: seq<Packet>, level: nat, hist: seq<Item>, j: nat, t: nat)
    requires Unfolds(ps, level, hist) && level < 4 && level != 2 && j < |ps| && ps[j].mode == Recent(t)
    ensures hist[j].count != 0 && hist[j + 1].key != hist[j].key ==> AheadBy(hist[j], hist[j + 1], t)
  {
    assert Moves(ps, level, hist, j);
    ReplaceStep(level, hist[j], hist[j + 1], ps[j].time, t);
  }

  /** In any run, whatever the other modes: outside level 2 a packet in recent mode changes the key of a cell only for
      an item whose time is at least the threshold ahead of the resident's. */
  lemma RecentReplaces(m: nat, home: Key -> nat, ps: seq<Packet>, j: nat, t: nat, i: nat)
    requires Homes(m, home) && NoneWraps(ps) && NotKicked(m, i) && j < |ps| && ps[j].mode == Recent(t)
    ensures var c, c' := Run(m, home, ps[..j]).cells[i], Run(m, home, ps[..j + 1]).cells[i];
            c.count != 0 && c'.key != c.key ==> AheadBy(c, c', t)
  {
    var hist := RunUnfolds(m, home, ps, i);
    ReplaceHistory(ps, LevelOf(m, i), hist, j, t);
  }

  /** Packets in recent mode with threshold t, in the order of their times. */
  ghost predicate RecentInOrder(ps: seq<Packet>, t: nat) {
    forall j: nat | j < |ps| :: InOrderAt(ps, t, j)
  }

  ghost predicate InOrderAt(ps: seq<Packet>, t: nat, j: nat)
    requires j < |ps|
  {
    ps[j].mode == Recent(t) && ps[j].time < 0x1_0000_0000 && (j > 0 ==> ps[j - 1].time <= ps[j].time)
  }

  lemma RecentStep(c: Item, c': Item, now: nat, t: nat)
    requires Becomes(Recent(t), 0, c, c', now) && now < 0x1_0000_0000 && (c.count != 0 ==> c.time <= now)
    ensures c'.count != 0 ==> c'.time <= now
    ensures c.count != 0 && now - c.time < t ==> Grown(c, c')
  {
  }

  /** The same flow, with no fewer packets and no earlier time. */
  ghost predicate Grown(c: Item, c': Item) {
    c'.key == c.key && c'.count >= c.count && c'.time >= c.time
  }

  lemma {:induction false} InOrderTimes(ps: seq<Packet>, t: nat, hist: seq<Item>, j: nat)
    requires RecentInOrder(ps, t) && Unfolds(ps, 0, hist) && 0 < j <= |ps|
    ensures hist[j].count != 0 ==> hist[j].time <= ps[j - 1].time
    decreases j
  {
    if j > 1 { InOrderTimes(ps, t, hist, j - 1); }
    assert Moves(ps, 0, hist, j - 1) && InOrderAt(ps, t, j - 1);
    RecentStep(hist[j - 1], hist[j], ps[j - 1].time, t);
  }

  lemma {:induction false} RecentHistory(ps: seq<Packet>, t: nat, hist: seq<Item>, n: nat, e: nat)
    requires RecentInOrder(ps, t) && Unfolds(ps, 0, hist) && n < e <= |ps|
    requires hist[n].count != 0 && ps[e - 1].time - hist[n].time < t
    ensures Grown(hist[n], hist[e])
    decreases e
  {
    var j := e - 1;
    assert InOrderAt(ps, t, j);
    if n < j { RecentHistory(ps, t, hist, n, j); }
    if j > 0 { InOrderTimes(ps, t, hist, j); }
    assert Moves(ps, 0, hist, j);
    RecentStep(hist[j], hist[j + 1], ps[j].time, t);
  }

  /** In recent mode, with packets in order, the flow in a level-0 cell stays, and only grows, as long as the packets
      are less than the threshold ahead of it. */
  lemma RecentFlowStays(m: nat, home: Key -> nat, ps: seq<Packet>, n: nat, e: nat, t: nat, i: nat)
    requires Homes(m, home) && NoneWraps(ps) && n < e <= |ps| && RecentInOrder(ps, t) && i < 8 * m
    requires var c := Run(m, home, ps[..n]).cells[i]; c.count != 0 && ps[e - 1].time - c.time < t
    ensures var c, c' := Run(m, home, ps[..n]).cells[i], Run(m, home, ps[..e]).cells[i];
            c'.key == c.key && c'.count >= c.count && c'.time >= c.time
  {
    var hist := RunUnfolds(m, home, ps, i);
    RecentHistory(ps, t, hist, n, e);
  }

  // ----- base mode

  lemma HeavyStep(level: nat, c: Item, c': Item, now: nat)
    requires level < 2 && Becomes(Base(0), level, c, c', now) && c.count >= 2
    ensures Grown(c, c')
  {
  }

  lemma {:induction false} HeavyHistory(ps: seq<Packet>, level: nat, hist: seq<Item>, n: nat, e: nat)
    requires AllBase(ps) && Unfolds(ps, level, hist) && level < 2 && n <= e <= |ps| && hist[n].count >= 2
    ensures Grown(hist[n], hist[e])
    decreases e
  {
    if n < e {
      HeavyHistory(ps, level, hist, n, e - 1);
      assert Moves(ps, level, hist, e - 1);
      HeavyStep(level, hist[e - 1], hist[e], ps[e - 1].time);
    }
  }

  /** In base mode a flow with two packets in a cell of level 0 or 1 is never driven out of it. */
  lemma HeavyStays(m: nat, home: Key -> nat, ps: seq<Packet>, n: nat, e: nat, i: nat)
    requires Homes(m, home) && NoneWraps(ps) && AllBase(ps) && n <= e <= |ps| && i < 12 * m
    requires Run(m, home, ps[..n]).cells[i].count >= 2
    ensures var c, c' := Run(m, home, ps[..n]).cells[i], Run(m, home, ps[..e]).cells[i];
            c'.key == c.key && c'.count >= c.count && c'.time >= c.time
  {
    var hist := RunUnfolds(m, home, ps, i);
    HeavyHistory(ps, LevelOf(m, i), hist, n, e);
  }

  // ----- time mode

  lemma TimeStep(level: nat, c: Item, c': Item, now: nat)
    requires level < 4 && level != 2 && Becomes(ByTime, level, c, c', now) && c.count != 0
    ensures c'.count != 0 && c'.time >= c.time
  {
  }

  lemma {:induction false} TimeHistory(ps: seq<Packet>, level: nat, hist: seq<Item>, n: nat, e: nat)
    requires (forall j | 0 <= j < |ps| :: ps[j].mode == ByTime) && Unfolds(ps, level, hist)
    requires level < 4 && level != 2 && n <= e <= |ps| && hist[n].count != 0
    ensures hist[e].count != 0 && hist[e].time >= hist[n].time
    decreases e
  {
    if n < e {
      TimeHistory(ps, level, hist, n, e - 1);
      assert Moves(ps, level, hist, e - 1);
      TimeStep(level, hist[e - 1], hist[e], ps[e - 1].time);
    }
  }

  /** In time mode the time of a cell outside level 2 never falls. */
  lemma TimesRise(m: nat, home: Key -> nat, ps: seq<Packet>, n: nat, e: nat, i: nat)
    requires Homes(m, home) && NoneWraps(ps) && n <= e <= |ps| && NotKicked(m, i)
    requires (forall j | 0 <= j < |ps| :: ps[j].mode == ByTime) && Run(m, home, ps[..n]).cells[i].count != 0
    ensures var c, c' := Run(m, home, ps[..n]).cells[i], Run(m, home, ps[..e]).cells[i];
            c'.count != 0 && c'.time >= c.time
  {
    var hist := RunUnfolds(m, home, ps, i);
    TimeHistory(ps, LevelOf(m, i), hist, n, e);
  }
}
