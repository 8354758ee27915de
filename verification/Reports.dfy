/** The single-table measurement tasks: feeding a stream into a table, merging its counters, and reporting heavy flows
    and addresses with many peers. A report is never false. */
module Reports {
  import opened Bytes
  import opened Items
  import opened AHeapSpec
  import opened AHeapTable
  import opened AHeapRuns
  import opened ReportSpec
  import opened Streams
  import opened MixedRuns

  /** The branch function of a table. */
  function HomeFunction(m: nat, hash: Key -> nat): Key -> nat
    requires m > 0
  {
    k => hash(k) % (8 * m)
  }

  lemma HomeFunctionHomes(m: nat, hash: Key -> nat)
    requires m > 0
    ensures Homes(m, HomeFunction(m, hash))
  {
  }

  /** The four branch cells of a key, in a table filled by any mix of the insertion modes, hold all there is of it. */
  lemma QueryTable(ah: AHeap, arrivals: seq<Arrival>, k: Key)
    requires ah.Valid() && ah.myCache[..]
             == TableOf(ah.minBucketNum, HomeFunction(ah.minBucketNum, ah.hash), Whole(), arrivals)
    ensures BranchSum(ah.minBucketNum, ah.myCache[..], ah.HomeOf(k), k) == Stored(ah.myCache[..], k)
  {
    HomeFunctionHomes(ah.minBucketNum, ah.hash);
    BranchQueryIsScan(ah.minBucketNum, HomeFunction(ah.minBucketNum, ah.hash), arrivals, k);
  }

  /** The ground truth: packets per key. */
  ghost predicate CountsOf(flowCount: map<Key, nat>, ps: seq<Packet>) {
    forall k :: (k in flowCount <==> Packets(ps, k) > 0) && (k in flowCount ==> flowCount[k] == Packets(ps, k))
  }

  lemma CountedFlows(flowCount: map<Key, nat>, ps: seq<Packet>)
    requires CountsOf(flowCount, ps)
    ensures flowCount.Keys == Flows(ps) && |flowCount| == |Flows(ps)|
  {
    forall k ensures k in flowCount <==> k in Flows(ps) { FlowsHavePackets(ps, k); }
  }

  lemma CountNext(flowCount: map<Key, nat>, ps: seq<Packet>, p: Packet)
    requires CountsOf(flowCount, ps)
    ensures CountsOf(flowCount[p.key := 1 + if p.key in flowCount then flowCount[p.key] else 0], ps + [p])
  {
    assert (ps + [p])[..|ps|] == ps;
  }

  /** Counts one packet. */
  method CountPacket(flowCount0: map<Key, nat>, ghost ps: seq<Packet>, p: Packet) returns (flowCount: map<Key, nat>)
    requires CountsOf(flowCount0, ps)
    ensures CountsOf(flowCount, ps + [p]) && |flowCount| == |Flows(ps + [p])|
  {
    CountNext(flowCount0, ps, p);
    flowCount := flowCount0[p.key := 1 + if p.key in flowCount0 then flowCount0[p.key] else 0];
    CountedFlows(flowCount, ps + [p]);
  }

  lemma NextPacket(tuples: seq<Key>, aging: nat, i: nat)
    requires (forall j | 0 <= j < |tuples| :: |tuples[j]| >= KEY_LEN) && i < |tuples|
    ensures PacketsOf(tuples, aging)[..i + 1]
            == PacketsOf(tuples, aging)[..i] + [Packet(Base(aging), tuples[i][..KEY_LEN], i)]
  {
  }

  /** Inserts one packet into a table that has seen the packets `ps`. */
  method InputOne(ah: AHeap, key: Key, i: nat, aging: nat, ghost ps: seq<Packet>)
    requires ah.Valid() && ah.keyLen == KEY_LEN && |key| == KEY_LEN && Sized(ah.myCache[..], KEY_LEN)
    requires ah.myCache[..] == Run(ah.minBucketNum, HomeFunction(ah.minBucketNum, ah.hash), ps).cells
    modifies ah.myCache
    ensures Sized(ah.myCache[..], KEY_LEN)
    ensures ah.myCache[..]
            == Run(ah.minBucketNum, HomeFunction(ah.minBucketNum, ah.hash), ps + [Packet(Base(aging), key, i)]).cells
  {
    assert (ps + [Packet(Base(aging), key, i)])[..|ps|] == ps;
    ah.Insert(Item(key, 1, i), key, aging);
  }

  /** Table and counts are those of the first n packets of a stream. */
  ghost predicate Fed(ah: AHeap, tuples: seq<Key>, aging: nat, n: nat, flowCount: map<Key, nat>)
    requires n <= |tuples| && forall i | 0 <= i < |tuples| :: |tuples[i]| >= KEY_LEN
    reads ah, ah.myCache, ah.levelStart
  {
    && ah.Valid() && ah.keyLen == KEY_LEN && Sized(ah.myCache[..], KEY_LEN)
    && CountsOf(flowCount, PacketsOf(tuples, aging)[..n])
    && ah.myCache[..]
       == Run(ah.minBucketNum, HomeFunction(ah.minBucketNum, ah.hash), PacketsOf(tuples, aging)[..n]).cells
  }

  /** Inserts the next packet, and counts it. */
  method InputNext(ah: AHeap, tuples: seq<Key>, aging: nat, i: nat, flowCount0: map<Key, nat>)
    returns (flowCount: map<Key, nat>)
    requires i < |tuples| && (forall j | 0 <= j < |tuples| :: |tuples[j]| >= KEY_LEN)
    requires Fed(ah, tuples, aging, i, flowCount0)
    modifies ah.myCache
    ensures Fed(ah, tuples, aging, i + 1, flowCount)
    ensures |flowCount| == |Distinct(KeysOf(tuples, KEY_LEN)[..i + 1])|
  {
    var key := tuples[i][..KEY_LEN];
    ghost var ps := PacketsOf(tuples, aging)[..i];
    NextPacket(tuples, aging, i);
    InputOne(ah, key, i, aging, ps);
    flowCount := CountPacket(flowCount0, ps, Packet(Base(aging), key, i));
    FlowsAreKeys(tuples, aging, i + 1);
  }

  lemma FedNothing(ah: AHeap, tuples: seq<Key>, aging: nat)
    requires ah.Valid() && ah.keyLen == KEY_LEN && forall i | 0 <= i < |tuples| :: |tuples[i]| >= KEY_LEN
    requires forall i | 0 <= i < ah.myCache.Length :: ah.myCache[i] == EMPTY
    ensures Fed(ah, tuples, aging, 0, map[])
  {
    var ps := PacketsOf(tuples, aging)[..0];
    assert ps == [];
    assert ah.myCache[..] == Run(ah.minBucketNum, HomeFunction(ah.minBucketNum, ah.hash), ps).cells;
  }

  /** The input loop, from a fresh table. */
  method InputLoop(ah: AHeap, tuples: seq<Key>, maxFlowNum: nat, aging: nat, ghost keys: seq<Key>)
    returns (packetCnt: nat, flowCount: map<Key, nat>)
    requires (forall i | 0 <= i < |tuples| :: |tuples[i]| >= KEY_LEN) && keys == KeysOf(tuples, KEY_LEN)
    requires Fed(ah, tuples, aging, 0, map[])
    modifies ah.myCache
    ensures packetCnt == StopFrom(keys, maxFlowNum, 0) && Fed(ah, tuples, aging, packetCnt, flowCount)
  {
    packetCnt, flowCount := 0, map[];
    for i := 0 to |tuples|
      invariant packetCnt == i && Fed(ah, tuples, aging, i, flowCount)
      invariant StopFrom(keys, maxFlowNum, i) == StopFrom(keys, maxFlowNum, 0)
    {
      flowCount := InputNext(ah, tuples, aging, i, flowCount);
      packetCnt := packetCnt + 1;
      if |flowCount| >= maxFlowNum { break; }
    }
  }

  /** Feeds packets into a fresh table and counts them, until `maxFlowNum` flows were seen. */
  method Input(ah: AHeap, tuples: seq<Key>, maxFlowNum: nat, aging: nat)
    returns (packetCnt: nat, flowCount: map<Key, nat>)
    requires ah.Valid() && ah.keyLen == KEY_LEN && forall i | 0 <= i < |tuples| :: |tuples[i]| >= KEY_LEN
    requires forall i | 0 <= i < ah.myCache.Length :: ah.myCache[i] == EMPTY
    modifies ah.myCache
    ensures StopsAt(KeysOf(tuples, KEY_LEN), maxFlowNum, packetCnt) && Fed(ah, tuples, aging, packetCnt, flowCount)
  {
    FedNothing(ah, tuples, aging);
    packetCnt, flowCount := InputLoop(ah, tuples, maxFlowNum, aging, KeysOf(tuples, KEY_LEN));
    StopFromStops(KeysOf(tuples, KEY_LEN), maxFlowNum, 0);
  }

  /** Collects the nonempty items of a table by key. */
  method MergeSingleCache(ah: AHeap) returns (unMap: map<Key, seq<Item>>)
    requires ah.Valid()
    ensures forall k ::
              (k in unMap <==> ItemsOf(ah.myCache[..], k) != [])
              && (k in unMap ==> unMap[k] == ItemsOf(ah.myCache[..], k))
  {
    unMap := map[];
    for i := 0 to ah.bucketNum
      invariant forall k ::
                  (k in unMap <==> ItemsOf(ah.myCache[..i], k) != [])
                  && (k in unMap ==> unMap[k] == ItemsOf(ah.myCache[..i], k))
    {
      assert ah.myCache[..i + 1][..i] == ah.myCache[..i];
      var item := ah.myCache[i];
      if item.count != 0 {
        if item.key !in unMap {
          unMap := unMap[item.key := [item]];
        } else {
          unMap := unMap[item.key := unMap[item.key] + [item]];
        }
      }
    }
    assert ah.myCache[..ah.bucketNum] == ah.myCache[..];
  }

  /** Adds up the counters of one key's items. */
  method MergeItems(m0: map<Key, int>, key: Key, items: seq<Item>) returns (m: map<Key, int>)
    requires key !in m0
    ensures m == if items == [] then m0 else m0[key := SumCounts(items)]
  {
    m := m0;
    for i := 0 to |items|
      invariant m == if i == 0 then m0 else m0[key := SumCounts(items[..i])]
    {
      assert items[..i + 1][..i] == items[..i];
      m := m[key := items[i].count + if key in m then m[key] else 0];
    }
    assert items[..|items|] == items;
  }

  /** Adds up the counters of the collected items. */
  method Merge(sum: map<Key, seq<Item>>) returns (m: map<Key, int>)
    ensures m.Keys == (set k | k in sum && sum[k] != []) && forall k | k in m :: m[k] == SumCounts(sum[k])
  {
    m := map[];
    var left := sum.Keys;
    while left != {}
      invariant left <= sum.Keys
      invariant m.Keys == (set k | k in sum && k !in left && sum[k] != [])
                && forall k | k in m :: m[k] == SumCounts(sum[k])
    {
      var key :| key in left;
      m := MergeItems(m, key, sum[key]);
      left := left - {key};
    }
  }

  /** The entries that reach a threshold. */
  method Heavy(counts: map<Key, int>, threshold: int) returns (heavy: map<Key, int>)
    ensures heavy.Keys == (set k | k in counts && counts[k] >= threshold)
            && forall k | k in heavy :: heavy[k] == counts[k]
  {
    heavy := map[];
    var left := counts.Keys;
    while left != {}
      invariant left <= counts.Keys
      invariant heavy.Keys == (set k | k in counts && k !in left && counts[k] >= threshold)
      invariant forall k | k in heavy :: heavy[k] == counts[k]
    {
      var key :| key in left;
      if counts[key] >= threshold { heavy := heavy[key := counts[key]]; }
      left := left - {key};
    }
  }

  /** Merged counts of a table after a run: every key in them was in the stream, and is not over-counted. */
  lemma MergedCounts(m: nat, home: Key -> nat, ps: seq<Packet>, k: Key)
    ensures var cells := Run(m, home, ps).cells;
            Stored(cells, k) <= Packets(ps, k) && (k in TableKeys(cells) ==> Packets(ps, k) > 0)
  {
    TableKeysStored(Run(m, home, ps).cells, k);
    NoOverEstimate(m, home, ps, k);
  }

  /** Merging a table's items and adding them up gives the stored counter sum of each key in the table. */
  lemma MergedReport(cells: seq<Item>, unMap: map<Key, seq<Item>>, sum: map<Key, int>)
    requires forall k :: (k in unMap <==> ItemsOf(cells, k) != []) && (k in unMap ==> unMap[k] == ItemsOf(cells, k))
    requires sum.Keys == (set k | k in unMap && unMap[k] != []) && forall k | k in sum :: sum[k] == SumCounts(unMap[k])
    ensures sum.Keys == TableKeys(cells) && forall k | k in sum :: sum[k] == Stored(cells, k)
  {
    forall k ensures k in sum <==> k in TableKeys(cells) {
      ItemsPositive(cells, k);
      TableKeysStored(cells, k);
    }
    forall k | k in sum ensures sum[k] == Stored(cells, k) { MergedIsStored(cells, k); }
  }

  /** Collects a table's items and adds up the counters of each key. */
  method MergedSum(ah: AHeap) returns (sum: map<Key, int>)
    requires ah.Valid()
    ensures sum.Keys == TableKeys(ah.myCache[..]) && forall k | k in sum :: sum[k] == Stored(ah.myCache[..], k)
  {
    var collected := MergeSingleCache(ah);
    sum := Merge(collected);
    MergedReport(ah.myCache[..], collected, sum);
  }

  /** Heavy hitters of a stream, from a fresh table (hh) and in truth (hhStd). Every reported key is truly heavy, so the
      number of true positives is the number of reports. The stream is read up to packet n. */
  method HhTest(ah: AHeap, tuples: seq<Key>, threshold: int, maxFlowNum: nat, aging: nat)
    returns (hh: map<Key, int>, hhStd: map<Key, int>, tp: nat, ghost n: nat)
    requires ah.Valid() && ah.keyLen == KEY_LEN && forall i | 0 <= i < |tuples| :: |tuples[i]| >= KEY_LEN
    requires forall i | 0 <= i < ah.myCache.Length :: ah.myCache[i] == EMPTY
    modifies ah.myCache
    ensures StopsAt(KeysOf(tuples, KEY_LEN), maxFlowNum, n)
    ensures ah.myCache[..]
            == Run(ah.minBucketNum, HomeFunction(ah.minBucketNum, ah.hash), PacketsOf(tuples, aging)[..n]).cells
    ensures IsReport(hh, ah.myCache[..], threshold) && IsTruth(hhStd, PacketsOf(tuples, aging)[..n], threshold)
    ensures forall k | k in hh :: k in hhStd && threshold <= hh[k] <= hhStd[k]
    ensures tp == |hh|
  {
    var cnt, flowCount := Input(ah, tuples, maxFlowNum, aging);
    n := cnt;
    ghost var ps := PacketsOf(tuples, aging)[..n];
    var sum := MergedSum(ah);
    hh := Heavy(sum, threshold);
    hhStd := Heavy(flowCount, threshold);
    forall k | k in hh ensures k in hhStd && hh[k] <= hhStd[k] {
      MergedCounts(ah.minBucketNum, HomeFunction(ah.minBucketNum, ah.hash), ps, k);
    }
    assert IsTruth(hhStd, ps, threshold);
    tp := CountCommon(hhStd, hh);
  }

  /** The keys with at least `threshold` packets, and their packets. */
  ghost predicate IsTruth(hhStd: map<Key, int>, ps: seq<Packet>, threshold: int) {
    forall k :: (k in hhStd <==> Packets(ps, k) > 0 && Packets(ps, k) >= threshold)
      && (k in hhStd ==> hhStd[k] == Packets(ps, k))
  }

  lemma CommonNext(truth: set<Key>, found: set<Key>, left: set<Key>, key: Key)
    requires left <= truth && key in left
    ensures |(truth - (left - {key})) * found| == |(truth - left) * found| + if key in found then 1 else 0
  {
    var before := (truth - left) * found;
    assert (truth - (left - {key})) * found == before + if key in found then {key} else {};
  }

  /** How many keys of `found` are in `truth`. */
  method CountCommon(truth: map<Key, int>, found: map<Key, int>) returns (tp: nat)
    ensures tp == |truth.Keys * found.Keys|
    ensures found.Keys <= truth.Keys ==> tp == |found|
  {
    tp := 0;
    var left := truth.Keys;
    while left != {}
      invariant left <= truth.Keys && tp == |(truth.Keys - left) * found.Keys|
    {
      var key :| key in left;
      CommonNext(truth.Keys, found.Keys, left, key);
      if key in found { tp := tp + 1; }
      left := left - {key};
    }
    assert truth.Keys - {} == truth.Keys;
    assert found.Keys <= truth.Keys ==> truth.Keys * found.Keys == found.Keys;
  }

  // ----- addresses with many peers

  /** What has been collected from the keys `done`. */
  ghost predicate PeersBy(tmpMap: map<Key, seq<Key>>, done: set<Key>, keyStart: nat, valStart: nat)
    requires keyStart + 4 <= KEY_LEN && valStart + 4 <= KEY_LEN && forall k | k in done :: |k| == KEY_LEN
  {
    && tmpMap.Keys == Addresses(done, keyStart)
    && forall a | a in tmpMap :: (set v | v in tmpMap[a]) == Peers(done, a, keyStart, valStart)
  }

  lemma PeersNext(done: set<Key>, tuple: Key, a: Key, keyStart: nat, valStart: nat)
    requires keyStart + 4 <= KEY_LEN && valStart + 4 <= KEY_LEN && |tuple| == KEY_LEN
             && forall k | k in done :: |k| == KEY_LEN
    ensures Peers(done + {tuple}, a, keyStart, valStart)
            == Peers(done, a, keyStart, valStart) + if a == tuple[keyStart..keyStart + 4]
              then {tuple[valStart..valStart + 4]} else {}
    ensures Addresses(done + {tuple}, keyStart) == Addresses(done, keyStart) + {tuple[keyStart..keyStart + 4]}
    ensures a !in Addresses(done, keyStart) ==> Peers(done, a, keyStart, valStart) == {}
  {
    if a !in Addresses(done, keyStart) {
      assert forall k | k in done :: k[keyStart..keyStart + 4] in Addresses(done, keyStart);
    }
  }

  lemma PeersByNext(tmpMap: map<Key, seq<Key>>, done: set<Key>, tuple: Key, keyStart: nat, valStart: nat,
                    next: map<Key, seq<Key>>)
    requires keyStart + 4 <= KEY_LEN && valStart + 4 <= KEY_LEN && |tuple| == KEY_LEN
             && forall k | k in done :: |k| == KEY_LEN
    requires PeersBy(tmpMap, done, keyStart, valStart)
    requires var key := tuple[keyStart..keyStart + 4];
             next == tmpMap[key := (if key in tmpMap then tmpMap[key] else []) + [tuple[valStart..valStart + 4]]]
    ensures PeersBy(next, done + {tuple}, keyStart, valStart)
  {
    var key, val := tuple[keyStart..keyStart + 4], tuple[valStart..valStart + 4];
    PeersNext(done, tuple, key, keyStart, valStart);
    forall a | a in next ensures (set v | v in next[a]) == Peers(done + {tuple}, a, keyStart, valStart) {
      PeersNext(done, tuple, a, keyStart, valStart);
      if a == key {
        var peers := if key in tmpMap then tmpMap[key] else [];
        assert (set v | v in peers + [val]) == (set v | v in peers) + {val};
      }
    }
  }

  /** Collects, for each address, the peers it occurs with. */
  method CollectPeers(m: map<Key, int>, keyStart: nat, valStart: nat) returns (tmpMap: map<Key, seq<Key>>)
    requires keyStart + 4 <= KEY_LEN && valStart + 4 <= KEY_LEN && forall k | k in m :: |k| == KEY_LEN
    ensures PeersBy(tmpMap, m.Keys, keyStart, valStart)
  {
    tmpMap := map[];
    var left := m.Keys;
    while left != {}
      invariant left <= m.Keys && PeersBy(tmpMap, m.Keys - left, keyStart, valStart)
    {
      var tuple :| tuple in left;
      var key, val := tuple[keyStart..keyStart + 4], tuple[valStart..valStart + 4];
      ghost var done, before := m.Keys - left, tmpMap;
      if key !in tmpMap {
        tmpMap := tmpMap[key := [val]];
      } else {
        tmpMap := tmpMap[key := tmpMap[key] + [val]];
      }
      assert [] + [val] == [val];
      PeersByNext(before, done, tuple, keyStart, valStart, tmpMap);
      left := left - {tuple};
      assert m.Keys - left == done + {tuple};
    }
    assert m.Keys - {} == m.Keys;
  }

  /** The set of the peers in a list. */
  method PeerSet(peers: seq<Key>) returns (s: set<Key>)
    ensures s == set v | v in peers
  {
    s := {};
    for i := 0 to |peers|
      invariant s == set v | v in peers[..i]
    {
      assert peers[..i + 1] == peers[..i] + [peers[i]];
      s := s + {peers[i]};
    }
    assert peers[..|peers|] == peers;
  }

  /** Addresses with at least `thre` distinct peers. */
  method CountIP(m: map<Key, int>, thre: int, keyStart: nat, valStart: nat) returns (ddos: map<Key, int>)
    requires keyStart + 4 <= KEY_LEN && valStart + 4 <= KEY_LEN && forall k | k in m :: |k| == KEY_LEN
    ensures ReportsAddresses(m.Keys, ddos, thre, keyStart, valStart)
  {
    var tmpMap := CollectPeers(m, keyStart, valStart);
    ddos := map[];
    var left := tmpMap.Keys;
    while left != {}
      invariant left <= tmpMap.Keys
      invariant forall a | a in ddos ::
                  a in tmpMap && a !in left && ddos[a] == |Peers(m.Keys, a, keyStart, valStart)| >= thre
      invariant forall a | a in tmpMap && a !in left && |Peers(m.Keys, a, keyStart, valStart)| >= thre :: a in ddos
    {
      var a :| a in left;
      var s := PeerSet(tmpMap[a]);
      if |s| >= thre { ddos := ddos[a := |s|]; }
      left := left - {a};
    }
  }

  ghost predicate KeysFit(keys: set<Key>) {
    forall k | k in keys :: |k| == KEY_LEN
  }

  /** Addresses with many peers, from a fresh table and in truth: no address is flagged wrongly, or with too many
      peers. */
  method AddressTest(ah: AHeap, tuples: seq<Key>, maxFlowNum: nat, thre: int, keyStart: nat, valStart: nat, aging: nat)
    returns (ddos: map<Key, int>, ddosStd: map<Key, int>, tp: nat, ghost n: nat)
    requires ah.Valid() && ah.keyLen == KEY_LEN && forall i | 0 <= i < |tuples| :: |tuples[i]| >= KEY_LEN
    requires forall i | 0 <= i < ah.myCache.Length :: ah.myCache[i] == EMPTY
    requires keyStart + 4 <= KEY_LEN && valStart + 4 <= KEY_LEN
    modifies ah.myCache
    ensures StopsAt(KeysOf(tuples, KEY_LEN), maxFlowNum, n)
    ensures ah.myCache[..]
            == Run(ah.minBucketNum, HomeFunction(ah.minBucketNum, ah.hash), PacketsOf(tuples, aging)[..n]).cells
    ensures KeysFit(TableKeys(ah.myCache[..]))
            && ReportsAddresses(TableKeys(ah.myCache[..]), ddos, thre, keyStart, valStart)
    ensures KeysFit(Flows(PacketsOf(tuples, aging)[..n]))
            && ReportsAddresses(Flows(PacketsOf(tuples, aging)[..n]), ddosStd, thre, keyStart, valStart)
    ensures forall a | a in ddos :: a in ddosStd && thre <= ddos[a] <= ddosStd[a]
    ensures tp == |ddos|
  {
    var cnt, flowCount := Input(ah, tuples, maxFlowNum, aging);
    n := cnt;
    ghost var ps := PacketsOf(tuples, aging)[..n];
    var sum := MergedSum(ah);
    CountedFlows(flowCount, ps);
    forall k | k in flowCount ensures |k| == KEY_LEN { StreamKey(tuples, aging, n, k); }
    forall k | k in sum ensures k in flowCount {
      MergedCounts(ah.minBucketNum, HomeFunction(ah.minBucketNum, ah.hash), ps, k);
    }
    ddos := CountIP(sum, thre, keyStart, valStart);
    ddosStd := CountIP(flowCount, thre, keyStart, valStart);
    MoreKeysMorePeers(sum.Keys, flowCount.Keys, ddos, ddosStd, thre, keyStart, valStart);
    tp := CountCommon(ddosStd, ddos);
  }

  lemma {:induction false} StreamKey(tuples: seq<Key>, aging: nat, n: nat, k: Key)
    requires (forall i | 0 <= i < |tuples| :: |tuples[i]| >= KEY_LEN) && n <= |tuples|
    requires Packets(PacketsOf(tuples, aging)[..n], k) > 0
    ensures |k| == KEY_LEN
  {
    if PacketsOf(tuples, aging)[n - 1].key != k {
      assert PacketsOf(tuples, aging)[..n][..n - 1] == PacketsOf(tuples, aging)[..n - 1];
      StreamKey(tuples, aging, n - 1, k);
    }
  }
}
