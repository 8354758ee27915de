/** What can be read from the counters of a table filled by any mix of the five insertion modes: the counter fields
    never add up to too much, and when the merged 32-bit sum of the whole words does. */
module MergedCounts {
  import opened Bytes
  import opened Items
  import opened AHeapSpec
  import opened AHeapRuns
  import opened BurstSpec
  import opened MixedRuns

  /** The packets of the flows for which k is stored. */
  function ArrivalsOf(seg: Key -> Key, arrivals: seq<Arrival>, k: Key): nat {
    if arrivals == [] then 0
    else ArrivalsOf(seg, arrivals[..|arrivals| - 1], k) + if seg(arrivals[|arrivals| - 1].flow) == k then 1 else 0
  }

  // ----- counter fields

  /** A packed cell with its counter alone. */
  function Masked(c: Item): Item {
    c.(count := CounterValue(c.count))
  }

  function MaskAll(cells: seq<Item>): (r: seq<Item>)
    ensures |r| == |cells|
  {
    seq(|cells|, i requires 0 <= i < |cells| => Masked(cells[i]))
  }

  /** The residue of x modulo 2^28 between 1 and 2^28. */
  function Residue(x: nat): (r: nat)
    ensures 1 <= r <= C28
  {
    (x + 0xFFF_FFFF) % 0x1000_0000 + 1
  }

  lemma SameResidue(x: nat, q: nat)
    ensures Residue(x + q * 0x1000_0000) == Residue(x)
  {
  }

  lemma ResidueAdds(a: nat, b: nat)
    ensures Residue(a + b) <= Residue(a) + Residue(b)
  {
    var x, y := (a + 0xFFF_FFFF) / 0x1000_0000, (b + 0xFFF_FFFF) / 0x1000_0000;
    var c := Residue(a) + Residue(b);
    assert a + b + 0x2000_0000 == c + (x + y) * 0x1000_0000;
    SameResidue(a + b, 2);
    SameResidue(c, x + y);
  }

  lemma ResidueAdds32(a: nat, b: nat)
    ensures Residue(Add32(a, b)) <= Residue(a) + Residue(b)
  {
    var n := a + b;
    ResidueAdds(a, b);
    SameResidue(n % 0x1_0000_0000, n / 0x1_0000_0000 * 16);
  }

  lemma ResidueOfField(x: nat, n: nat)
    ensures Residue(SetBursty(x, n)) == Residue(x) && Residue(IncrementBursty(x)) == Residue(x)
  {
    SameResidue(x % 0x1000_0000, n);
    SameResidue(x % 0x1000_0000, x / 0x1000_0000);
    SameResidue(x % 0x1000_0000, x / 0x1000_0000 + 1);
  }

  /** What a cell stands for, at most: its counter field, or 2^28 where that has become 0 in a cell in use. */
  function Bound(c: Item): Item {
    if c.count == 0 then c else c.(count := Residue(c.count))
  }

  function Bounds(cells: seq<Item>): (r: seq<Item>)
    ensures |r| == |cells|
  {
    seq(|cells|, i requires 0 <= i < |cells| => Bound(cells[i]))
  }

  /** What an item that travels on stands for, at most. */
  function Carried(item: Item, k: Key): nat {
    if item.key == k then Residue(item.count) else 0
  }

  lemma {:induction false} MaskedBelow(cells: seq<Item>, k: Key)
    ensures Stored(MaskAll(cells), k) <= Stored(Bounds(cells), k)
  {
    if cells != [] {
      var n := |cells| - 1;
      MaskedBelow(cells[..n], k);
      assert MaskAll(cells)[..n] == MaskAll(cells[..n]) && Bounds(cells)[..n] == Bounds(cells[..n]);
      SameResidue(cells[n].count % 0x1000_0000, cells[n].count / 0x1000_0000);
    }
  }

  /** A same-key merge, whether it counts one or what the item carries. */
  lemma MergeBounded(cell: Item, item: Item)
    requires cell.count > 0
    ensures Bound(Bump(cell, item)).count <= Residue(cell.count) + Residue(item.count)
    ensures Bound(Absorb(cell, item)).count <= Residue(cell.count) + Residue(item.count)
  {
    ResidueAdds32(cell.count, item.count);
    ResidueAdds32(cell.count, 1);
  }

  lemma VisitBounded(mode: Mode, level: nat, cell: Item, item: Item, k: Key)
    requires item.count > 0
    ensures var hit := Visit(mode, level, cell, item);
            Weight(Bound(hit.cell), k) + (if hit.done then 0 else Carried(hit.item, k)) <= Weight(Bound(cell), k)
              + Carried(item, k)
            && (!hit.done ==> hit.item.count > 0)
  {
    if cell.count > 0 { MergeBounded(cell, item); }
  }

  lemma VisitBurstyBounded(level: nat, cell: Item, item: Item, k: Key)
    ensures var hit := VisitBursty(level, cell, item).hit;
            Weight(Bound(hit.cell), k) + (if hit.done then 0 else Carried(hit.item, k)) <= Weight(Bound(cell), k)
              + Carried(item, k)
  {
    ResidueAdds32(cell.count, item.count);
    ResidueOfField(Add32(cell.count, item.count), 0);
    ResidueOfField(item.count, 1);
    ResidueOfField(cell.count, 0);
  }

  lemma {:induction false} InsertBounded(mode: Mode, m: nat, cells: seq<Item>, h: nat, level: nat, item: Item, k: Key)
    requires |cells| == 15 * m && h < 8 * m && level <= 4 && item.count > 0
    ensures Stored(Bounds(InsertFrom(mode, m, cells, h, level, item).cells), k) <= Stored(Bounds(cells), k)
            + Carried(item, k)
    decreases 4 - level
  {
    if level < 4 {
      PosInLevel(m, h, level);
      var pos := Pos(m, h, level);
      var hit := Visit(mode, level, cells[pos], item);
      var cells' := cells[pos := hit.cell];
      VisitBounded(mode, level, cells[pos], item, k);
      StoredUpdate(Bounds(cells), pos, Bound(hit.cell), k);
      assert Bounds(cells') == Bounds(cells)[pos := Bound(hit.cell)];
      if !hit.done { InsertBounded(mode, m, cells', h, level + 1, hit.item, k); }
    }
  }

  lemma {:induction false} BurstBounded(m: nat, cells: seq<Item>, h: nat, level: nat, item: Item, k: Key)
    requires |cells| == 15 * m && h < 8 * m && level <= 4
    ensures Stored(Bounds(BurstFrom(m, cells, h, level, item).cells), k) <= Stored(Bounds(cells), k) + Carried(item, k)
    decreases 4 - level
  {
    if level < 4 {
      PosInLevel(m, h, level);
      var pos := Pos(m, h, level);
      var hit := VisitBursty(level, cells[pos], item).hit;
      var cells' := cells[pos := hit.cell];
      VisitBurstyBounded(level, cells[pos], item, k);
      StoredUpdate(Bounds(cells), pos, Bound(hit.cell), k);
      assert Bounds(cells') == Bounds(cells)[pos := Bound(hit.cell)];
      if !hit.done { BurstBounded(m, cells', h, level + 1, hit.item, k); }
    }
  }

  lemma {:induction false} TableBounded(m: nat, home: Key -> nat, seg: Key -> Key, arrivals: seq<Arrival>, k: Key)
    ensures Stored(Bounds(TableOf(m, home, seg, arrivals)), k) <= ArrivalsOf(seg, arrivals, k)
  {
    if arrivals == [] {
      StoredNone(Bounds(TableOf(m, home, seg, arrivals)), k);
    } else {
      var n := |arrivals| - 1;
      var a, cells := arrivals[n], TableOf(m, home, seg, arrivals[..n]);
      TableBounded(m, home, seg, arrivals[..n], k);
      if home(a.flow) < 8 * m {
        var item := Item(seg(a.flow), 1, a.time);
        match a.how
        case InMode(mode) => InsertBounded(mode, m, cells, home(a.flow), 0, item, k);
        case InBurst => BurstBounded(m, cells, home(a.flow), 0, item, k);
      }
    }
  }

  /** No over-estimation under any mix of the five modes, over any stream, however long: the counters of a key or
      fragment, the burst fields masked off, add up to at most the packets of the flows it is stored for. */
  lemma MixedNoOverEstimate(m: nat, home: Key -> nat, seg: Key -> Key, arrivals: seq<Arrival>, k: Key)
    ensures Stored(MaskAll(TableOf(m, home, seg, arrivals)), k) <= ArrivalsOf(seg, arrivals, k)
  {
    MaskedBelow(TableOf(m, home, seg, arrivals), k);
    TableBounded(m, home, seg, arrivals, k);
  }

  lemma {:induction false} BurstArrivalsOf(ps: seq<BurstPacket>, k: Key)
    ensures ArrivalsOf(Whole(), BurstArrivals(ps), k) == BurstPackets(ps, k)
  {
    if ps != [] {
      var n := |ps| - 1;
      BurstArrivalsOf(ps[..n], k);
      assert BurstArrivals(ps)[..n] == BurstArrivals(ps[..n]);
    }
  }

  /** In particular in burst mode. */
  lemma BurstNoOverEstimate(m: nat, home: Key -> nat, ps: seq<BurstPacket>, k: Key)
    ensures Stored(MaskAll(RunPacked(m, home, ps).cells), k) <= BurstPackets(ps, k)
  {
    BurstRunIsTable(m, home, ps);
    BurstArrivalsOf(ps, k);
    MixedNoOverEstimate(m, home, Whole(), BurstArrivals(ps), k);
  }

  // ----- merged 32-bit sums of whole words

  /** A number cut to 32 bits and read with a sign. */
  function AsInt32(n: int): (r: int)
    ensures -0x8000_0000 <= r < 0x8000_0000
  {
    var w := n % 0x1_0000_0000;
    if w < 0x8000_0000 then w else w - 0x1_0000_0000
  }

  /** The merged count of a key: the words of its cells in use, added up in an int. */
  function MergedInt(cells: seq<Item>, k: Key): int {
    if cells == [] then 0
    else
      var sum, c := MergedInt(cells[..|cells| - 1], k), cells[|cells| - 1];
      if c.count != 0 && c.key == k then AsInt32(sum + c.count) else sum
  }

  lemma AsInt32Adds(a: int, b: int)
    ensures AsInt32(AsInt32(a) + b) == AsInt32(a + b)
  {
  }

  lemma {:induction false} MergedIntIsStored(cells: seq<Item>, k: Key)
    ensures MergedInt(cells, k) == AsInt32(Stored(cells, k))
  {
    if cells != [] {
      MergedIntIsStored(cells[..|cells| - 1], k);
      AsInt32Adds(Stored(cells[..|cells| - 1], k), cells[|cells| - 1].count);
    }
  }

  lemma SmallSum(cells: seq<Item>, k: Key)
    requires Stored(cells, k) < 0x8000_0000
    ensures MergedInt(cells, k) == Stored(cells, k)
  {
    MergedIntIsStored(cells, k);
  }

  /** Without burst mode the merged int of a flow of fewer than 2^31 packets is the sum of its counters. */
  lemma PlainMergedExact(m: nat, home: Key -> nat, ps: seq<Packet>, k: Key)
    requires Packets(ps, k) < 0x8000_0000
    ensures MergedInt(Run(m, home, ps).cells, k) == Stored(Run(m, home, ps).cells, k) <= Packets(ps, k)
  {
    NoOverEstimate(m, home, ps, k);
    SmallSum(Run(m, home, ps).cells, k);
  }

  /** The burst fields of a key's cells, added up. */
  function FieldSum(cells: seq<Item>, k: Key): nat {
    if cells == [] then 0
    else
      var sum, c := FieldSum(cells[..|cells| - 1], k), cells[|cells| - 1];
      if c.key == k then sum + c.count / 0x1000_0000 else sum
  }

  lemma {:induction false} StoredSplits(cells: seq<Item>, k: Key)
    ensures Stored(cells, k) == Stored(MaskAll(cells), k) + FieldSum(cells, k) * 0x1000_0000
  {
    if cells != [] {
      var n := |cells| - 1;
      StoredSplits(cells[..n], k);
      assert MaskAll(cells)[..n] == MaskAll(cells[..n]);
      assert cells[n].count == cells[n].count % 0x1000_0000 + cells[n].count / 0x1000_0000 * 0x1000_0000;
    }
  }

  lemma SignOfSum(low: nat, fields: nat, bound: nat)
    requires low <= bound < 0x1000_0000
    ensures AsInt32(low + fields * 0x1000_0000) <= bound <==> fields % 16 == 0 || fields % 16 >= 8
  {
    var q, r := fields / 16, fields % 16;
    assert low + fields * 0x1000_0000 == low + r * 0x1000_0000 + q * 0x1_0000_0000;
    assert (low + fields * 0x1000_0000) % 0x1_0000_0000 == low + r * 0x1000_0000;
  }

  lemma MergedIntSplits(cells: seq<Item>, k: Key)
    ensures MergedInt(cells, k) == AsInt32(Stored(MaskAll(cells), k) + FieldSum(cells, k) * 0x1000_0000)
  {
    MergedIntIsStored(cells, k);
    StoredSplits(cells, k);
  }

  lemma MergedIntExact(cells: seq<Item>, k: Key, n: nat)
    requires Stored(MaskAll(cells), k) <= n < 0x1000_0000
    ensures MergedInt(cells, k) <= n <==> FieldSum(cells, k) % 16 == 0 || FieldSum(cells, k) % 16 >= 8
  {
    MergedIntSplits(cells, k);
    SignOfSum(Stored(MaskAll(cells), k), FieldSum(cells, k), n);
  }

  /** Merging adds up whole words, burst fields included, in 32 bits with a sign. For a flow of fewer than 2^28 packets
      the merged count is at most its packets exactly when the fields of its cells add up to 0, or to 8 and more, modulo
      16. */
  lemma RawMergedExact(m: nat, home: Key -> nat, seg: Key -> Key, arrivals: seq<Arrival>, k: Key)
    requires ArrivalsOf(seg, arrivals, k) < C28
    ensures var cells := TableOf(m, home, seg, arrivals);
            MergedInt(cells, k) <= ArrivalsOf(seg, arrivals, k) <==>
              FieldSum(cells, k) % 16 == 0 || FieldSum(cells, k) % 16 >= 8
  {
    MixedNoOverEstimate(m, home, seg, arrivals, k);
    MergedIntExact(TableOf(m, home, seg, arrivals), k, ArrivalsOf(seg, arrivals, k));
  }

  /** n burst packets of one flow. */
  function Repeated(key: Key, time: nat, n: nat): (arrivals: seq<Arrival>)
    ensures |arrivals| == n
  {
    seq(n, _ => Arrival(InBurst, key, time))
  }

  lemma {:induction false} RepeatedCount(key: Key, time: nat, n: nat)
    ensures ArrivalsOf(Whole(), Repeated(key, time, n), key) == n
  {
    if n > 0 {
      RepeatedCount(key, time, n - 1);
      assert Repeated(key, time, n)[..n - 1] == Repeated(key, time, n - 1);
    }
  }

  /** n packets counted in a cell, n merges in its field. */
  function EqualFields(n: nat): nat {
    n * 0x1000_0001
  }

  lemma MergesEqually(key: Key, time: nat, n: nat)
    requires 1 <= n < 8
    ensures VisitBursty(0, Item(key, EqualFields(n), time), Item(key, 1, time)).hit.cell
            == Item(key, EqualFields(n + 1), time)
    ensures VisitBursty(0, Item(key, EqualFields(n), time), Item(key, 1, time)).hit.done
  {
    var count := EqualFields(n) + 1;
    assert count < 0x1_0000_0000 && count / 0x1000_0000 == n && count % 0x1000_0000 == n + 1;
  }

  lemma StartsEqually(key: Key, time: nat)
    ensures VisitBursty(0, EMPTY, Item(key, 1, time)).hit
            == Hit(Item(key, EqualFields(1), time), Item(key, 1, time), true)
  {
  }

  /** Up to eight of them leave one cell in use, with n in the counter and n in the burst field. */
  lemma {:induction false} RepeatedCell(m: nat, home: Key -> nat, key: Key, time: nat, n: nat, blank: seq<Item>)
    requires home(key) < 8 * m && 1 <= n <= 8 && blank == TableOf(m, home, Whole(), [])
             && Pos(m, home(key), 0) < |blank|
    ensures TableOf(m, home, Whole(), Repeated(key, time, n))
            == blank[Pos(m, home(key), 0) := Item(key, EqualFields(n), time)]
  {
    var list := Repeated(key, time, n);
    assert list[..n - 1] == Repeated(key, time, n - 1);
    if n == 1 {
      assert list[..0] == [];
      StartsEqually(key, time);
    } else {
      RepeatedCell(m, home, key, time, n - 1, blank);
      MergesEqually(key, time, n - 1);
    }
  }

  lemma MergedOne(blank: seq<Item>, pos: nat, item: Item)
    requires pos < |blank| && forall i | 0 <= i < |blank| :: blank[i] == EMPTY
    ensures MergedInt(blank[pos := item], item.key) == AsInt32(item.count)
  {
    StoredNone(blank, item.key);
    StoredUpdate(blank, pos, item, item.key);
    MergedIntIsStored(blank[pos := item], item.key);
  }

  lemma EqualWord(n: nat)
    requires 1 <= n <= 8
    ensures AsInt32(EqualFields(n)) == if n < 8 then n + n * 0x1000_0000 else -2147483640
  {
  }

  lemma RepeatedMerged(m: nat, home: Key -> nat, key: Key, time: nat, n: nat)
    requires Homes(m, home) && 1 <= n <= 8
    ensures MergedInt(TableOf(m, home, Whole(), Repeated(key, time, n)), key) == AsInt32(EqualFields(n))
  {
    var blank, h := TableOf(m, home, Whole(), []), home(key);
    assert h < 8 * m;
    PosInLevel(m, h, 0);
    RepeatedCell(m, home, key, time, n, blank);
    MergedOne(blank, Pos(m, h, 0), Item(key, EqualFields(n), time));
  }

  /** The merged count of one flow of n packets in an empty table is too high from the first packet on, by n burst
      fields; the eighth makes it negative, though the table still holds the flow. */
  lemma RawMergedFails(m: nat, home: Key -> nat, key: Key, time: nat, n: nat)
    requires Homes(m, home) && 1 <= n <= 8
    ensures ArrivalsOf(Whole(), Repeated(key, time, n), key) == n
    ensures MergedInt(TableOf(m, home, Whole(), Repeated(key, time, n)), key)
            == if n < 8 then n + n * 0x1000_0000 else -2147483640
  {
    RepeatedCount(key, time, n);
    RepeatedMerged(m, home, key, time, n);
    EqualWord(n);
  }
}
