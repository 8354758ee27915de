/** What the measurement tasks compute: merged counts of a table, and distinct peers of an address. */
module ReportSpec {
  import opened Bytes
  import opened Items
  import opened AHeapSpec
  import opened AHeapRuns
  import opened Streams

  const KEY_LEN := 13

  /** The nonempty items of a table that carry key k, in table order. */
  function ItemsOf(cells: seq<Item>, k: Key): seq<Item> {
    if cells == [] then []
    else
      var rest, c := ItemsOf(cells[..|cells| - 1], k), cells[|cells| - 1];
      if c.count != 0 && c.key == k then rest + [c] else rest
  }

  function SumCounts(items: seq<Item>): nat {
    if items == [] then 0 else SumCounts(items[..|items| - 1]) + items[|items| - 1].count
  }

  /** Adding up the merged items of a key is adding up its counters over the table. */
  lemma {:induction false} MergedIsStored(cells: seq<Item>, k: Key)
    ensures SumCounts(ItemsOf(cells, k)) == Stored(cells, k)
  {
    if cells != [] {
      var rest, c := ItemsOf(cells[..|cells| - 1], k), cells[|cells| - 1];
      MergedIsStored(cells[..|cells| - 1], k);
      assert (rest + [c])[..|rest|] == rest;
    }
  }

  lemma {:induction false} ItemsPositive(cells: seq<Item>, k: Key)
    ensures ItemsOf(cells, k) != [] <==> Stored(cells, k) > 0
  {
    if cells != [] { ItemsPositive(cells[..|cells| - 1], k); }
  }

  /** The packets of a stream of tuples: base mode, arrival number as time. */
  function PacketsOf(tuples: seq<Key>, aging: nat): (ps: seq<Packet>)
    requires forall i | 0 <= i < |tuples| :: |tuples[i]| >= KEY_LEN
    ensures |ps| == |tuples|
  {
    seq(|tuples|, i requires 0 <= i < |tuples| => Packet(Base(aging), tuples[i][..KEY_LEN], i))
  }

  /** The keys of a stream. */
  ghost function Flows(ps: seq<Packet>): set<Key> {
    set i | 0 <= i < |ps| :: ps[i].key
  }

  lemma {:induction false} FlowsHavePackets(ps: seq<Packet>, k: Key)
    ensures k in Flows(ps) <==> Packets(ps, k) > 0
  {
    if ps != [] {
      var n := |ps| - 1;
      FlowsHavePackets(ps[..n], k);
      if k in Flows(ps[..n]) { assert exists i :: 0 <= i < n && ps[..n][i].key == k; }
      assert k in Flows(ps) <==> k in Flows(ps[..n]) || ps[n].key == k by {
        assert forall i | 0 <= i < n :: ps[..n][i] == ps[i];
      }
    }
  }

  /** The flows of the packets are the distinct keys of the tuples. */
  lemma FlowsAreKeys(tuples: seq<Key>, aging: nat, n: nat)
    requires (forall i | 0 <= i < |tuples| :: |tuples[i]| >= KEY_LEN) && n <= |tuples|
    ensures Flows(PacketsOf(tuples, aging)[..n]) == Distinct(KeysOf(tuples, KEY_LEN)[..n])
  {
    var ps, keys := PacketsOf(tuples, aging)[..n], KeysOf(tuples, KEY_LEN)[..n];
    assert forall i | 0 <= i < n :: ps[i].key == keys[i];
    forall k ensures k in Flows(ps) <==> k in Distinct(keys) {
      if k in Distinct(keys) {
        var i :| 0 <= i < n && keys[i] == k;
        assert ps[i].key == k;
      }
    }
  }

  /** The keys in the nonempty cells of a table. */
  ghost function TableKeys(cells: seq<Item>): set<Key> {
    set i | 0 <= i < |cells| && cells[i].count != 0 :: cells[i].key
  }

  lemma {:induction false} TableKeysStored(cells: seq<Item>, k: Key)
    ensures k in TableKeys(cells) <==> Stored(cells, k) > 0
  {
    if cells != [] {
      var n := |cells| - 1;
      TableKeysStored(cells[..n], k);
      if k in TableKeys(cells[..n]) {
        assert exists i :: 0 <= i < n && cells[..n][i].count != 0 && cells[..n][i].key == k;
      }
      assert k in TableKeys(cells) <==> k in TableKeys(cells[..n]) || (cells[n].count != 0 && cells[n].key == k) by {
        assert forall i | 0 <= i < n :: cells[..n][i] == cells[i];
      }
    }
  }

  /** `report` holds exactly the keys whose counters in the table add up to the threshold, with the sum. */
  ghost predicate IsReport(report: map<Key, int>, cells: seq<Item>, threshold: int) {
    forall k :: (k in report <==> k in TableKeys(cells) && Stored(cells, k) >= threshold)
      && (k in report ==> report[k] == Stored(cells, k))
  }

  // ----- distinct peers

  /** The peers seen with address `a`: the 4 bytes at valStart of the keys whose 4 bytes at keyStart are `a`. */
  ghost function Peers(keys: set<Key>, a: Key, keyStart: nat, valStart: nat): set<Key>
    requires keyStart + 4 <= KEY_LEN && valStart + 4 <= KEY_LEN && forall k | k in keys :: |k| == KEY_LEN
  {
    set k | k in keys && k[keyStart..keyStart + 4] == a :: k[valStart..valStart + 4]
  }

  /** `report` holds exactly the addresses among `keys` with at least `thre` distinct peers, with their number. */
  ghost predicate ReportsAddresses(keys: set<Key>, report: map<Key, int>, thre: int, keyStart: nat, valStart: nat)
    requires keyStart + 4 <= KEY_LEN && valStart + 4 <= KEY_LEN && forall k | k in keys :: |k| == KEY_LEN
  {
    (forall a | a in report :: a in Addresses(keys, keyStart)
      && report[a] == |Peers(keys, a, keyStart, valStart)| >= thre)
    && forall a | a in Addresses(keys, keyStart) && |Peers(keys, a, keyStart, valStart)| >= thre :: a in report
  }

  ghost function Addresses(keys: set<Key>, keyStart: nat): set<Key>
    requires keyStart + 4 <= KEY_LEN && forall k | k in keys :: |k| == KEY_LEN
  {
    set k | k in keys :: k[keyStart..keyStart + 4]
  }

  /** What is flagged from fewer keys is flagged from more, with at least as many peers. */
  lemma MoreKeysMorePeers(keys: set<Key>, all: set<Key>, report: map<Key, int>, truth: map<Key, int>, thre: int,
                          keyStart: nat, valStart: nat)
    requires keyStart + 4 <= KEY_LEN && valStart + 4 <= KEY_LEN && keys <= all && forall k | k in all :: |k| == KEY_LEN
    requires ReportsAddresses(keys, report, thre, keyStart, valStart)
             && ReportsAddresses(all, truth, thre, keyStart, valStart)
    ensures forall a | a in report :: a in truth && report[a] <= truth[a]
  {
    forall a | a in report ensures a in truth && report[a] <= truth[a] {
      SubsetSize(Peers(keys, a, keyStart, valStart), Peers(all, a, keyStart, valStart));
    }
  }
}
