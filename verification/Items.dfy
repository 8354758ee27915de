/** Items of the AHeap table and what one level of the table does with an incoming item, mode by mode. */
module Items {
  import opened Bytes

  const U32 := 0x1_0000_0000

  /** C arithmetic on 32-bit unsigned values. */
  function Add32(a: nat, b: nat): nat {
    (a + b) % 0x1_0000_0000
  }

  function Sub32(a: nat, b: nat): nat {
    (a - b) % 0x1_0000_0000
  }

  /** A key or key fragment with its counter and its latest time; counter 0 means empty. */
  datatype Item = Item(key: Key, count: nat, time: nat)

  const EMPTY := Item([], 0, 0)

  /** What a level does: the new cell, and unless it is done with it, the item that travels on. */
  datatype Hit = Hit(cell: Item, item: Item, done: bool)

  /** The insertion modes. */
  datatype Mode =
    | Base(aging: nat)
    | Threshold(timeThre: nat, counterThre: nat)
    | Recent(recentThre: nat)
    | ByTime

  function Later(a: nat, b: nat): nat {
    if a > b then a else b
  }

  /** Heavier, or equally heavy and not older. */
  predicate CompItem(a: Item, b: Item) {
    a.count > b.count || (a.count == b.count && a.time >= b.time)
  }

  /** A same-key merge that counts one, whatever the incoming item carries. */
  function Bump(cell: Item, item: Item): Item {
    Item(cell.key, Add32(cell.count, 1), Later(cell.time, item.time))
  }

  /** A same-key merge that adds what the incoming item carries. */
  function Absorb(cell: Item, item: Item): Item {
    Item(cell.key, Add32(cell.count, item.count), Later(cell.time, item.time))
  }

  /** Whether a d-left level gives the cell to the incoming item of another key. */
  predicate Displaces(mode: Mode, cell: Item, item: Item) {
    match mode
    case Base(aging) => if aging != 0 then Sub32(item.time, cell.time) > aging else cell.count == 1
    case Threshold(t, c) => cell.count <= c || Sub32(item.time, cell.time) >= t
    case Recent(t) => cell.count <= 0 || Sub32(item.time, cell.time) >= t
    case ByTime => item.time > cell.time
  }

  /** Whether the root gives its cell to the incoming item of another key. */
  predicate Dethrones(mode: Mode, cell: Item, item: Item) {
    match mode
    case Base(_) => CompItem(item, cell)
    case Threshold(_, _) => CompItem(item, cell)
    case Recent(t) => Sub32(item.time, cell.time) >= t
    case ByTime => item.time > cell.time
  }

  function Exchange(cell: Item, item: Item, swap: bool): Hit {
    if swap then Hit(item, cell, false) else Hit(cell, item, false)
  }

  function DLeft(mode: Mode, cell: Item, item: Item): Hit {
    if cell.count == 0 then Hit(item, item, true)
    else if item.key == cell.key then
      Hit(if mode.Threshold? || mode.Recent? then Absorb(cell, item) else Bump(cell, item), item, true)
    else Exchange(cell, item, Displaces(mode, cell, item))
  }

  function MustKick(cell: Item, item: Item): Hit {
    if cell.count == 0 then Hit(item, item, true)
    else if item.key == cell.key then Hit(Bump(cell, item), item, true)
    else Exchange(cell, item, true)
  }

  function Root(mode: Mode, cell: Item, item: Item): Hit {
    if cell.count == 0 then Hit(item, item, true)
    else if item.key == cell.key then Hit(if mode.ByTime? then Bump(cell, item) else Absorb(cell, item), item, true)
    else Exchange(cell, item, Dethrones(mode, cell, item))
  }

  /** Level 0 and 1 are d-left, level 2 always kicks, level 3 is the root. */
  function Visit(mode: Mode, level: nat, cell: Item, item: Item): Hit {
    if level < 2 then DLeft(mode, cell, item)
    else if level == 2 then MustKick(cell, item)
    else Root(mode, cell, item)
  }

  /** A level brings in no key of its own: what holds of the keys there still holds. */
  lemma VisitKeys(mode: Mode, level: nat, cell: Item, item: Item, ok: Key -> bool)
    requires (cell.count != 0 ==> ok(cell.key)) && ok(item.key)
    ensures var hit := Visit(mode, level, cell, item);
            (hit.cell.count != 0 ==> ok(hit.cell.key)) && (!hit.done ==> ok(hit.item.key))
  {
  }

  /** The packets an item stands for, for key k. */
  function Weight(item: Item, k: Key): nat {
    if item.key == k then item.count else 0
  }

  function Left(hit: Hit, k: Key): nat {
    if hit.done then 0 else Weight(hit.item, k)
  }

  /** No level ever counts a packet twice, in any mode; and an item that travels on is not empty. */
  lemma VisitNoGain(mode: Mode, level: nat, cell: Item, item: Item, k: Key)
    requires item.count > 0
    ensures var hit := Visit(mode, level, cell, item);
            Weight(hit.cell, k) + Left(hit, k) <= Weight(cell, k) + Weight(item, k)
              && (!hit.done ==> hit.item.count > 0)
  {
  }

  /** In base mode an item that carries one packet below the root level loses none, but for counter wrap-around. */
  lemma VisitConserves(level: nat, cell: Item, item: Item, k: Key) returns (wraps: nat)
    requires item.count > 0 && (level <= 2 ==> item.count == 1)
    ensures var hit := Visit(Base(0), level, cell, item);
            Weight(hit.cell, k) + Left(hit, k) + U32 * wraps == Weight(cell, k) + Weight(item, k)
            && (!hit.done ==> hit.item.count > 0 && (level < 2 ==> hit.item.count == 1))
  {
    wraps := 0;
    if cell.count != 0 && item.key == cell.key == k {
      var n := cell.count + item.count;
      wraps := n / 0x1_0000_0000;
      assert n == 0x1_0000_0000 * wraps + n % 0x1_0000_0000;
    }
  }
}
