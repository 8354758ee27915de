/** Tables filled by any mix of the five insertion modes, burst mode included, and where their items lie. A table may
    hold whole keys, or a fragment of each key. */
module MixedRuns {
  import opened Bytes
  import opened Items
  import opened AHeapSpec
  import opened BurstSpec
  import opened AHeapRuns

  /** How a packet is inserted. */
  datatype How = InMode(mode: Mode) | InBurst

  datatype Arrival = Arrival(how: How, flow: Key, time: nat)

  /** The table after one insertion on branch `h`. */
  function InsertBy(how: How, m: nat, cells: seq<Item>, h: nat, item: Item): (r: seq<Item>)
    requires |cells| == 15 * m && h < 8 * m
    ensures |r| == |cells|
  {
    match how
    case InMode(mode) => InsertFrom(mode, m, cells, h, 0, item).cells
    case InBurst => BurstFrom(m, cells, h, 0, item).cells
  }

  /** The table after the packets in turn; `seg` gives what is stored as the key of a flow. */
  function TableOf(m: nat, home: Key -> nat, seg: Key -> Key, arrivals: seq<Arrival>): (cells: seq<Item>)
    ensures |cells| == 15 * m
  {
    if arrivals == [] then seq(15 * m, _ => EMPTY)
    else
      var a := arrivals[|arrivals| - 1];
      var cells := TableOf(m, home, seg, arrivals[..|arrivals| - 1]);
      if home(a.flow) < 8 * m then InsertBy(a.how, m, cells, home(a.flow), Item(seg(a.flow), 1, a.time)) else cells
  }

  /** Whole keys are stored. */
  function Whole(): Key -> Key {
    key => key
  }

  // ----- the runs of one kind are among them

  function Arrivals(ps: seq<Packet>): (list: seq<Arrival>)
    ensures |list| == |ps|
  {
    seq(|ps|, i requires 0 <= i < |ps| => Arrival(InMode(ps[i].mode), ps[i].key, ps[i].time))
  }

  function BurstArrivals(ps: seq<BurstPacket>): (list: seq<Arrival>)
    ensures |list| == |ps|
  {
    seq(|ps|, i requires 0 <= i < |ps| => Arrival(InBurst, ps[i].key, ps[i].time))
  }

  lemma {:induction false} RunIsTable(m: nat, home: Key -> nat, ps: seq<Packet>)
    ensures Run(m, home, ps).cells == TableOf(m, home, Whole(), Arrivals(ps))
  {
    if ps != [] {
      var n := |ps| - 1;
      RunIsTable(m, home, ps[..n]);
      assert Arrivals(ps)[..n] == Arrivals(ps[..n]);
    }
  }

  lemma {:induction false} BurstRunIsTable(m: nat, home: Key -> nat, ps: seq<BurstPacket>)
    ensures RunPacked(m, home, ps).cells == TableOf(m, home, Whole(), BurstArrivals(ps))
  {
    if ps != [] {
      var n := |ps| - 1;
      BurstRunIsTable(m, home, ps[..n]);
      assert BurstArrivals(ps)[..n] == BurstArrivals(ps[..n]);
    }
  }

  // ----- whole keys

  lemma InsertByKeepsBranches(how: How, m: nat, home: Key -> nat, cells: seq<Item>, item: Item)
    requires Homes(m, home) && OnBranches(m, home, cells)
    ensures home(item.key) < 8 * m && OnBranches(m, home, InsertBy(how, m, cells, home(item.key), item))
  {
    assert home(item.key) < 8 * m;
    match how
    case InMode(mode) => InsertKeepsBranches(mode, m, home, cells, home(item.key), 0, item);
    case InBurst => BurstKeepsBranches(m, home, cells, home(item.key), 0, item);
  }

  /** Every table reachable by any mix of the insertion modes keeps every item on the branch of its own key. */
  lemma {:induction false} RunOnBranches(m: nat, home: Key -> nat, arrivals: seq<Arrival>)
    requires Homes(m, home)
    ensures OnBranches(m, home, TableOf(m, home, Whole(), arrivals))
  {
    if arrivals != [] {
      var n := |arrivals| - 1;
      var a := arrivals[n];
      RunOnBranches(m, home, arrivals[..n]);
      InsertByKeepsBranches(a.how, m, home, TableOf(m, home, Whole(), arrivals[..n]), Item(a.flow, 1, a.time));
    }
  }

  /** An item at place q of a level lies on the branch of its key: q is the key's level-0 cell divided by 2^level. */
  lemma StoredPlace(m: nat, home: Key -> nat, arrivals: seq<Arrival>, i: nat)
    requires Homes(m, home) && i < 15 * m && TableOf(m, home, Whole(), arrivals)[i].count != 0
    ensures var level, h := LevelOf(m, i), home(TableOf(m, home, Whole(), arrivals)[i].key);
            h < 8 * m && i == LevelStart(m, level)
              + h / (if level == 0 then 1 else if level == 1 then 2 else if level == 2 then 4 else 8)
  {
    var cells := TableOf(m, home, Whole(), arrivals);
    RunOnBranches(m, home, arrivals);
    assert OnBranch(m, home, cells[i], i) && home(cells[i].key) < 8 * m;
    UpIsDivision(home(cells[i].key));
  }

  /** So querying the four branch cells of a key finds the same sum as scanning the whole table. */
  lemma BranchQueryIsScan(m: nat, home: Key -> nat, arrivals: seq<Arrival>, k: Key)
    requires Homes(m, home)
    ensures var cells := TableOf(m, home, Whole(), arrivals);
            home(k) < 8 * m && BranchSum(m, cells, home(k), k) == Stored(cells, k)
  {
    RunOnBranches(m, home, arrivals);
    BranchHoldsAll(m, home, TableOf(m, home, Whole(), arrivals), k);
  }
}
