/** A switch stores, for each packet of a flow, its own fragment of the flow's padded key, on the branch of the key. */
module Switch {
  import opened Bytes
  import opened Items
  import opened AHeapSpec
  import opened Generator
  import opened Codec
  import opened Combos
  import opened AHeapTable
  import opened BurstSpec
  import opened MixedRuns

  /** The key repeated until it fills fullLen bytes. */
  function Padded(key: Key, fullLen: nat): (full: Key)
    requires key != []
    ensures |full| == fullLen
  {
    seq(fullLen, i requires 0 <= i < fullLen => key[i % |key|])
  }

  /** The key is the front part of what it is padded to. */
  lemma PaddedFront(key: Key, fullLen: nat)
    requires key != [] && |key| <= fullLen
    ensures Padded(key, fullLen)[..|key|] == key
  {
    forall i: nat | i < |key| ensures Padded(key, fullLen)[i] == key[i] { DivModUnique(i, |key|, 0, i); }
  }

  lemma NextIndex(i: nat, n: nat)
    requires n > 0
    ensures (i + 1) % n == (i % n + 1) % n
  {
    var q, r := i / n, i % n;
    DivMod(i, n);
    if r + 1 < n {
      DivModUnique(i + 1, n, q, r + 1);
      DivModUnique(r + 1, n, 0, r + 1);
    } else {
      MulNext(q, n);
      DivModUnique(i + 1, n, q + 1, 0);
      DivModUnique(n, n, 1, 0);
    }
  }

  method PadKey(key: Key, fullLen: nat) returns (fullKey: Key)
    requires key != [] && |key| <= fullLen
    ensures fullKey == Padded(key, fullLen) && fullKey[..|key|] == key
  {
    PaddedFront(key, fullLen);
    fullKey := key;
    var keyIndex := 0;
    assert |key| % |key| == 0 by { DivModUnique(|key|, |key|, 1, 0); }
    for i := |key| to fullLen
      invariant keyIndex == i % |key| < |key| && fullKey == Padded(key, fullLen)[..i]
    {
      fullKey := fullKey + [key[keyIndex]];
      NextIndex(i, |key|);
      keyIndex := (keyIndex + 1) % |key|;
      DivMod(keyIndex, |key|);
    }
  }

  lemma SegmentLength(k: nat, fullLen: nat)
    requires k > 0
    ensures k * (fullLen / k) <= fullLen
  {
  }

  /** The part of the padded key that is coded, and the fragment of it that switch `id` stores. */
  function Coded(key: Key, k: nat, fullLen: nat): (full: Key)
    requires key != [] && k > 0
    ensures |full| == k * (fullLen / k)
  {
    SegmentLength(k, fullLen);
    Padded(key, fullLen)[..k * (fullLen / k)]
  }

  function Segment(L: Isal, key: Key, k: nat, fullLen: nat, id: nat): (seg: Key)
    requires key != [] && 0 < k <= 256 && id < 256
    ensures |seg| == fullLen / k
  {
    FragmentOf(L.gf, Coded(key, k, fullLen), k, fullLen / k, id)
  }

  /** Inserts one packet of a flow at a switch. */
  method AHeapInsert(L: Isal, cache: AHeap, sId: nat, key: Key, k: nat, p: nat, time: nat, fullLen: nat, aging: nat)
    requires IsIsal(L) && cache.Valid() && key != [] && |key| <= fullLen && k > 0 && sId < k + p <= 255
    requires cache.keyLen == fullLen / k && Sized(cache.myCache[..], cache.keyLen)
    modifies cache.myCache
    ensures Sized(cache.myCache[..], cache.keyLen)
    ensures cache.myCache[..]
            == InsertFrom(Base(aging), cache.minBucketNum, old(cache.myCache[..]), cache.HomeOf(key), 0,
                                            Item(Segment(L, key, k, fullLen, sId), 1, time)).cells
  {
    var fullKey := PadKey(key, fullLen);
    var segLen := fullLen / k;
    SegmentLength(k, fullLen);
    var seg := Encode(L, sId, fullKey, k, p, segLen);
    cache.Insert(Item(seg, 1, time), key, aging);
  }

  // ----- where the fragments of a table come from

  /** The fragment in cell i is that of flow number x, and that flow's branch passes through the cell. */
  predicate ComesFrom(m: nat, home: Key -> nat, seg: Key -> Key, arrivals: seq<Arrival>, x: nat, key: Key, i: nat) {
    x < |arrivals| && key == seg(arrivals[x].flow) && Passes(m, home(arrivals[x].flow), i)
  }

  ghost predicate Traceable(m: nat, home: Key -> nat, seg: Key -> Key, arrivals: seq<Arrival>, key: Key, i: nat) {
    exists x: nat :: ComesFrom(m, home, seg, arrivals, x, key, i)
  }

  lemma PassesNext(m: nat, g: nat, h: nat, level: nat)
    requires g < 8 * m && h < 8 * m && level < 3 && Passes(m, g, Pos(m, h, level))
    ensures Passes(m, g, Pos(m, h, level + 1))
  {
    var l: nat :| l < 4 && Pos(m, h, level) == Pos(m, g, l);
    PosInLevel(m, g, l);
    PosInLevel(m, h, level);
    SameAbove(m, g, h, level);
  }

  lemma TraceableNext(m: nat, home: Key -> nat, seg: Key -> Key, arrivals: seq<Arrival>, key: Key, h: nat, level: nat)
    requires Homes(m, home) && h < 8 * m && level < 3 && Traceable(m, home, seg, arrivals, key, Pos(m, h, level))
    ensures Traceable(m, home, seg, arrivals, key, Pos(m, h, level + 1))
  {
    var x: nat :| ComesFrom(m, home, seg, arrivals, x, key, Pos(m, h, level));
    assert home(arrivals[x].flow) < 8 * m;
    PassesNext(m, home(arrivals[x].flow), h, level);
    assert ComesFrom(m, home, seg, arrivals, x, key, Pos(m, h, level + 1));
  }

  ghost predicate TraceableItem(m: nat, home: Key -> nat, seg: Key -> Key, arrivals: seq<Arrival>, item: Item, i: nat) {
    item.count != 0 ==> Traceable(m, home, seg, arrivals, item.key, i)
  }

  ghost predicate AllTraceable(m: nat, home: Key -> nat, seg: Key -> Key, arrivals: seq<Arrival>, cells: seq<Item>) {
    forall i | 0 <= i < |cells| :: TraceableItem(m, home, seg, arrivals, cells[i], i)
  }

  /** Evicted fragments stay on the branches of the flows they come from. */
  lemma {:induction false} InsertTraceable(mode: Mode, m: nat, home: Key -> nat, seg: Key -> Key,
                                           arrivals: seq<Arrival>,
                                           cells: seq<Item>, h: nat, level: nat, item: Item)
    requires Homes(m, home) && h < 8 * m && level <= 4 && |cells| == 15 * m
             && AllTraceable(m, home, seg, arrivals, cells)
    requires level < 4 ==> Traceable(m, home, seg, arrivals, item.key, Pos(m, h, level))
    ensures AllTraceable(m, home, seg, arrivals, InsertFrom(mode, m, cells, h, level, item).cells)
    decreases 4 - level
  {
    if level < 4 {
      PosInLevel(m, h, level);
      var pos := Pos(m, h, level);
      var hit := Visit(mode, level, cells[pos], item);
      assert TraceableItem(m, home, seg, arrivals, cells[pos], pos);
      VisitKeys(mode, level, cells[pos], item, k => Traceable(m, home, seg, arrivals, k, pos));
      if !hit.done {
        if level < 3 { TraceableNext(m, home, seg, arrivals, hit.item.key, h, level); }
        InsertTraceable(mode, m, home, seg, arrivals, cells[pos := hit.cell], h, level + 1, hit.item);
      }
    }
  }

  lemma {:induction false} BurstTraceable(m: nat, home: Key -> nat, seg: Key -> Key, arrivals: seq<Arrival>,
                                          cells: seq<Item>, h: nat, level: nat, item: Item)
    requires Homes(m, home) && h < 8 * m && level <= 4 && |cells| == 15 * m
             && AllTraceable(m, home, seg, arrivals, cells)
    requires level < 4 ==> Traceable(m, home, seg, arrivals, item.key, Pos(m, h, level))
    ensures AllTraceable(m, home, seg, arrivals, BurstFrom(m, cells, h, level, item).cells)
    decreases 4 - level
  {
    if level < 4 {
      PosInLevel(m, h, level);
      var pos := Pos(m, h, level);
      var hit := VisitBursty(level, cells[pos], item).hit;
      assert TraceableItem(m, home, seg, arrivals, cells[pos], pos);
      BurstyKeys(level, cells[pos], item, k => Traceable(m, home, seg, arrivals, k, pos));
      if !hit.done {
        if level < 3 { TraceableNext(m, home, seg, arrivals, hit.item.key, h, level); }
        BurstTraceable(m, home, seg, arrivals, cells[pos := hit.cell], h, level + 1, hit.item);
      }
    }
  }

  lemma TraceableMore(m: nat, home: Key -> nat, seg: Key -> Key, arrivals: seq<Arrival>, cells: seq<Item>)
    requires arrivals != [] && AllTraceable(m, home, seg, arrivals[..|arrivals| - 1], cells)
    ensures AllTraceable(m, home, seg, arrivals, cells)
  {
    var front := arrivals[..|arrivals| - 1];
    forall i | 0 <= i < |cells| ensures TraceableItem(m, home, seg, arrivals, cells[i], i) {
      assert TraceableItem(m, home, seg, front, cells[i], i);
      if cells[i].count != 0 {
        var x: nat :| ComesFrom(m, home, seg, front, x, cells[i].key, i);
        assert ComesFrom(m, home, seg, arrivals, x, cells[i].key, i);
      }
    }
  }

  /** In every table reachable by any mix of the insertion modes, each stored fragment is the fragment of a flow that
      arrived, and lies on the branch of that flow's whole key, though only fragments are compared on the way. */
  lemma {:induction false} FragmentsTraceable(m: nat, home: Key -> nat, seg: Key -> Key, arrivals: seq<Arrival>)
    requires Homes(m, home)
    ensures AllTraceable(m, home, seg, arrivals, TableOf(m, home, seg, arrivals))
  {
    if arrivals != [] {
      var n := |arrivals| - 1;
      var a, cells := arrivals[n], TableOf(m, home, seg, arrivals[..n]);
      FragmentsTraceable(m, home, seg, arrivals[..n]);
      TraceableMore(m, home, seg, arrivals, cells);
      assert home(a.flow) < 8 * m;
      assert Passes(m, home(a.flow), Pos(m, home(a.flow), 0));
      assert ComesFrom(m, home, seg, arrivals, n, seg(a.flow), Pos(m, home(a.flow), 0));
      var item := Item(seg(a.flow), 1, a.time);
      match a.how
      case InMode(mode) => InsertTraceable(mode, m, home, seg, arrivals, cells, home(a.flow), 0, item);
      case InBurst => BurstTraceable(m, home, seg, arrivals, cells, home(a.flow), 0, item);
    }
  }

  // ----- the last arrival is in the table

  /** A cell in use on branch h holds key. */
  ghost predicate OnTable(m: nat, cells: seq<Item>, h: nat, key: Key) {
    exists l: nat :: HoldsAt(m, cells, h, l, key)
  }

  predicate HoldsAt(m: nat, cells: seq<Item>, h: nat, l: nat, key: Key) {
    l < 4 && Pos(m, h, l) < |cells| && cells[Pos(m, h, l)].count != 0 && cells[Pos(m, h, l)].key == key
  }

  /** No counter is about to wrap. */
  ghost predicate NoneFull(cells: seq<Item>) {
    forall i | 0 <= i < |cells| :: cells[i].count < 0xFFFF_FFFF
  }

  /** A level takes the packet, or passes it on unchanged, which level 2 does not. */
  lemma TakenOrPassed(mode: Mode, level: nat, cell: Item, item: Item)
    requires item.count == 1 && level <= 2 && cell.count < 0xFFFF_FFFF
    ensures var hit := Visit(mode, level, cell, item);
            (hit.cell.count != 0 && hit.cell.key == item.key) || (level < 2 && hit == Hit(cell, item, false))
  {
  }

  lemma TakenOrPassedBursty(level: nat, cell: Item, item: Item)
    requires item.count == 1 && level <= 2
    ensures var hit := VisitBursty(level, cell, item).hit;
            (hit.cell.count != 0 && hit.cell.key == item.key) || (level < 2 && hit == Hit(cell, item, false))
  {
  }

  lemma {:induction false} InsertStores(mode: Mode, m: nat, cells: seq<Item>, h: nat, level: nat, item: Item)
    requires |cells| == 15 * m && h < 8 * m && level <= 2 && item.count == 1 && NoneFull(cells)
    ensures OnTable(m, InsertFrom(mode, m, cells, h, level, item).cells, h, item.key)
    decreases 4 - level
  {
    PosInLevel(m, h, level);
    var pos := Pos(m, h, level);
    var hit := Visit(mode, level, cells[pos], item);
    TakenOrPassed(mode, level, cells[pos], item);
    var cells' := cells[pos := hit.cell];
    if hit.cell.count != 0 && hit.cell.key == item.key {
      if !hit.done { InsertAbove(mode, m, cells', h, level + 1, hit.item, level); }
      assert HoldsAt(m, InsertFrom(mode, m, cells, h, level, item).cells, h, level, item.key);
    } else {
      assert cells' == cells;
      InsertStores(mode, m, cells', h, level + 1, hit.item);
    }
  }

  lemma {:induction false} BurstStores(m: nat, cells: seq<Item>, h: nat, level: nat, item: Item)
    requires |cells| == 15 * m && h < 8 * m && level <= 2 && item.count == 1
    ensures OnTable(m, BurstFrom(m, cells, h, level, item).cells, h, item.key)
    decreases 4 - level
  {
    PosInLevel(m, h, level);
    var pos := Pos(m, h, level);
    var hit := VisitBursty(level, cells[pos], item).hit;
    TakenOrPassedBursty(level, cells[pos], item);
    var cells' := cells[pos := hit.cell];
    if hit.cell.count != 0 && hit.cell.key == item.key {
      if !hit.done { BurstAbove(m, cells', h, level + 1, hit.item, level); }
      assert HoldsAt(m, BurstFrom(m, cells, h, level, item).cells, h, level, item.key);
    } else {
      assert cells' == cells;
      BurstStores(m, cells', h, level + 1, hit.item);
    }
  }

  /** Whatever the table was, the fragment of the last packet is in it, on the branch of the packet's flow. */
  lemma LastStored(m: nat, home: Key -> nat, seg: Key -> Key, arrivals: seq<Arrival>)
    requires Homes(m, home) && arrivals != [] && NoneFull(TableOf(m, home, seg, arrivals[..|arrivals| - 1]))
    ensures var flow := arrivals[|arrivals| - 1].flow;
            OnTable(m, TableOf(m, home, seg, arrivals), home(flow), seg(flow))
  {
    var n := |arrivals| - 1;
    var a, cells := arrivals[n], TableOf(m, home, seg, arrivals[..n]);
    assert home(a.flow) < 8 * m;
    match a.how
    case InMode(mode) => InsertStores(mode, m, cells, home(a.flow), 0, Item(seg(a.flow), 1, a.time));
    case InBurst => BurstStores(m, cells, home(a.flow), 0, Item(seg(a.flow), 1, a.time));
  }

  lemma LastCell(m: nat, home: Key -> nat, seg: Key -> Key, arrivals: seq<Arrival>, flow: Key) returns (i: nat)
    requires Homes(m, home) && arrivals != [] && NoneFull(TableOf(m, home, seg, arrivals[..|arrivals| - 1]))
    requires flow == arrivals[|arrivals| - 1].flow
    ensures i < 15 * m && Passes(m, home(flow), i)
    ensures TableOf(m, home, seg, arrivals)[i].count != 0 && TableOf(m, home, seg, arrivals)[i].key == seg(flow)
  {
    LastStored(m, home, seg, arrivals);
    var l: nat :| HoldsAt(m, TableOf(m, home, seg, arrivals), home(flow), l, seg(flow));
    i := Pos(m, home(flow), l);
  }
}
