/** The AHeap table itself: an array of items updated in place, with the insertion modes of the source. */
module AHeapTable {
  import opened Bytes
  import opened Items
  import opened AHeapSpec
  import opened BurstSpec

  const LEVELS := 4

  /** min_num times 2^i. */
  function Doubled(minNum: nat, i: nat): nat {
    if i == 0 then minNum else 2 * Doubled(minNum, i - 1)
  }

  class AHeap {
    const hash: Key -> nat
    var minBucketNum: nat
    var cacheId: int
    var bucketNum: nat
    var keyLen: nat
    var levelStart: array<nat>
    var myCache: array<Item>

    ghost predicate Valid()
      reads this, levelStart
    {
      && minBucketNum > 0 && bucketNum == 15 * minBucketNum == myCache.Length
      && levelStart.Length == LEVELS
      && forall l: nat | l < LEVELS :: levelStart[l] == LevelStart(minBucketNum, l)
    }

    /** The level-0 cell a hash key picks. */
    ghost function HomeOf(hashKey: Key): (h: nat)
      requires minBucketNum > 0
      reads this
      ensures h < 8 * minBucketNum
    {
      hash(hashKey) % (8 * minBucketNum)
    }

    constructor (minNum: nat, id: int, hash: Key -> nat)
      requires minNum > 0
      ensures Valid() && fresh(levelStart) && fresh(myCache)
      ensures this.hash == hash && minBucketNum == minNum && cacheId == id && keyLen == 13
      ensures forall i | 0 <= i < myCache.Length :: myCache[i] == EMPTY
    {
      this.hash := hash;
      minBucketNum := minNum;
      cacheId := id;
      keyLen := 13;
      var total, next := 0, minNum;
      for i := 0 to LEVELS
        invariant next == Doubled(minNum, i) && total + minNum == Doubled(minNum, i)
      {
        total := total + next;
        next := next * 2;
      }
      assert Doubled(minNum, 2) == 2 * Doubled(minNum, 1) == 4 * minNum;
      assert total == 15 * minNum;
      bucketNum := total;
      var start := new nat[LEVELS](_ => 0);
      var left := minNum;
      next := minNum;
      for i := 1 to LEVELS
        invariant next == Doubled(minNum, i - 1) && left + minNum == 2 * next
        invariant start[0] == 0
        invariant forall l: nat | LEVELS - i < l < LEVELS :: start[l] == LevelStart(minNum, l)
      {
        assert next == if i == 1 then minNum else if i == 2 then 2 * minNum else 4 * minNum;
        start[LEVELS - i] := total - left;
        left := left + next * 2;
        next := next * 2;
      }
      levelStart := start;
      myCache := new Item[total](_ => EMPTY);
    }

    method SetKeylen(len: nat)
      modifies this`keyLen
      ensures keyLen == len
    {
      keyLen := len;
    }

    /** Whether two items carry the same key: compares `keyLen` bytes. */
    method SameKey(a: Item, b: Item) returns (same: bool)
      requires |a.key| >= keyLen && |b.key| >= keyLen
      ensures same <==> a.key[..keyLen] == b.key[..keyLen]
    {
      for i := 0 to keyLen
        invariant a.key[..i] == b.key[..i]
      {
        if a.key[i] != b.key[i] {
          assert a.key[..keyLen][i] != b.key[..keyLen][i];
          return false;
        }
      }
      return true;
    }

    /** A same-key merge of the base mode with window_thre = 0: one more, and the later time. */
    method IncrementItem(newItem: Item, pos: nat)
      requires pos < myCache.Length
      modifies myCache
      ensures myCache[..] == old(myCache[..])[pos := Bump(old(myCache[pos]), newItem)]
    {
      if newItem.time > myCache[pos].time {
        myCache[pos] := myCache[pos].(time := newItem.time);
      }
      myCache[pos] := myCache[pos].(count := Add32(myCache[pos].count, 1));
    }

    /** A same-key merge that adds f. */
    method IncrementItemBy(newItem: Item, pos: nat, f: nat)
      requires pos < myCache.Length && f == newItem.count
      modifies myCache
      ensures myCache[..] == old(myCache[..])[pos := Absorb(old(myCache[pos]), newItem)]
    {
      if newItem.time > myCache[pos].time {
        myCache[pos] := myCache[pos].(time := newItem.time);
      }
      myCache[pos] := myCache[pos].(count := Add32(myCache[pos].count, f));
    }

    /** Swaps a resident item with the incoming one. */
    method ExchangeItem(pos: nat, item: Item) returns (carried: Item)
      requires pos < myCache.Length
      modifies myCache
      ensures myCache[..] == old(myCache[..])[pos := item] && carried == old(myCache[pos])
    {
      carried := myCache[pos];
      myCache[pos] := item;
    }

    /** Stored keys, and the incoming one, have the length the table compares. */
    ghost predicate Fitting(item: Item)
      reads this, myCache
    {
      Sized(myCache[..], keyLen) && |item.key| == keyLen
    }

    /** d-left of the base mode. Where the source falls off the end of the function, nothing was exchanged and the item
        travels on. */
    method DLeftLevel(item: Item, level: nat, index: nat, aging: nat, ghost h: nat) returns (done: bool, carried: Item)
      requires Valid() && Fitting(item) && level < 2 && h < 8 * minBucketNum && index == Up(h, level)
      modifies myCache
      ensures Sized(myCache[..], keyLen) && (!done ==> |carried.key| == keyLen)
      ensures Climbs(Base(aging), minBucketNum, old(myCache[..]), h, level, item, myCache[..], done, carried)
    {
      ghost var before := myCache[..];
      PosInLevel(minBucketNum, h, level);
      var pos := levelStart[level] + index;
      done, carried := false, item;
      if myCache[pos].count == 0 {
        myCache[pos] := item;
        done := true;
      } else {
        var same := SameKey(item, myCache[pos]);
        if same {
          IncrementItem(item, pos);
          done := true;
        } else if aging != 0 {
          if Sub32(item.time, myCache[pos].time) > aging {
            carried := ExchangeItem(pos, item);
          }
        } else {
          if myCache[pos].count == 1 {
            carried := ExchangeItem(pos, item);
          }
        }
      }
      VisitClimbs(Base(aging), minBucketNum, before, h, level, item, myCache[..], done, carried);
    }

    /** d-left with thresholds on time and counter; the recent mode calls it with counter threshold 0. */
    method DLeftLevelThre(item: Item, level: nat, index: nat, timeThre: nat, counterThre: nat, ghost h: nat)
      returns (done: bool, carried: Item)
      requires Valid() && Fitting(item) && level < 2 && h < 8 * minBucketNum && index == Up(h, level)
      modifies myCache
      ensures Sized(myCache[..], keyLen) && (!done ==> |carried.key| == keyLen)
      ensures Climbs(Threshold(timeThre, counterThre), minBucketNum, old(myCache[..]), h, level, item, myCache[..],
              done, carried)
      ensures counterThre == 0 ==>
                Climbs(Recent(timeThre), minBucketNum, old(myCache[..]), h, level, item, myCache[..], done, carried)
    {
      ghost var before := myCache[..];
      PosInLevel(minBucketNum, h, level);
      var pos := levelStart[level] + index;
      done, carried := false, item;
      if myCache[pos].count == 0 {
        myCache[pos] := item;
        done := true;
      } else {
        var same := SameKey(item, myCache[pos]);
        if same {
          IncrementItemBy(item, pos, item.count);
          done := true;
        } else if myCache[pos].count <= counterThre || Sub32(item.time, myCache[pos].time) >= timeThre {
          carried := ExchangeItem(pos, item);
        }
      }
      VisitClimbs(Threshold(timeThre, counterThre), minBucketNum, before, h, level, item, myCache[..], done, carried);
      if counterThre == 0 {
        VisitClimbs(Recent(timeThre), minBucketNum, before, h, level, item, myCache[..], done, carried);
      }
    }

    /** d-left by time. */
    method DLeftLevelByTime(item: Item, level: nat, index: nat, ghost h: nat) returns (done: bool, carried: Item)
      requires Valid() && Fitting(item) && level < 2 && h < 8 * minBucketNum && index == Up(h, level)
      modifies myCache
      ensures Sized(myCache[..], keyLen) && (!done ==> |carried.key| == keyLen)
      ensures Climbs(ByTime, minBucketNum, old(myCache[..]), h, level, item, myCache[..], done, carried)
    {
      ghost var before := myCache[..];
      PosInLevel(minBucketNum, h, level);
      var pos := levelStart[level] + index;
      done, carried := false, item;
      if myCache[pos].count == 0 {
        myCache[pos] := item;
        done := true;
      } else {
        var same := SameKey(item, myCache[pos]);
        if same {
          IncrementItem(item, pos);
          done := true;
        } else if item.time > myCache[pos].time {
          carried := ExchangeItem(pos, item);
        }
      }
      VisitClimbs(ByTime, minBucketNum, before, h, level, item, myCache[..], done, carried);
    }

    /** Level 2: the resident of another key always leaves. */
    method MustKickLevel(ghost mode: Mode, item: Item, level: nat, index: nat, ghost h: nat)
      returns (done: bool, carried: Item)
      requires Valid() && Fitting(item) && level == 2 && h < 8 * minBucketNum && index == Up(h, level)
      modifies myCache
      ensures Sized(myCache[..], keyLen) && (!done ==> |carried.key| == keyLen)
      ensures Climbs(mode, minBucketNum, old(myCache[..]), h, level, item, myCache[..], done, carried)
    {
      ghost var before := myCache[..];
      PosInLevel(minBucketNum, h, level);
      var pos := levelStart[level] + index;
      done, carried := false, item;
      if myCache[pos].count == 0 {
        myCache[pos] := item;
        done := true;
      } else {
        var same := SameKey(item, myCache[pos]);
        if same {
          IncrementItem(item, pos);
          done := true;
        } else {
          carried := ExchangeItem(pos, item);
        }
      }
      VisitClimbs(mode, minBucketNum, before, h, level, item, myCache[..], done, carried);
    }

    /** The root of the base and threshold modes: the heavier item stays. */
    method RootByWeight(ghost mode: Mode, flow: Item, index: nat, ghost h: nat)
      requires Valid() && Fitting(flow) && h < 8 * minBucketNum && index == Up(h, 3) && (mode.Base? || mode.Threshold?)
      modifies myCache
      ensures Sized(myCache[..], keyLen)
      ensures Climbs(mode, minBucketNum, old(myCache[..]), h, 3, flow, myCache[..], true, flow)
    {
      InsertAtRoot(mode, minBucketNum, myCache[..], h, flow);
      var pos := levelStart[3] + index;
      if myCache[pos].count == 0 {
        myCache[pos] := flow;
      } else {
        var same := SameKey(flow, myCache[pos]);
        if same {
          IncrementItemBy(flow, pos, flow.count);
        } else if CompItem(flow, myCache[pos]) {
          var lost := ExchangeItem(pos, flow);
        }
      }
    }

    /** The root of the recent mode: an item stays until it is `timeThre` older. */
    method RootByAge(timeThre: nat, flow: Item, index: nat, ghost h: nat)
      requires Valid() && Fitting(flow) && h < 8 * minBucketNum && index == Up(h, 3)
      modifies myCache
      ensures Sized(myCache[..], keyLen)
      ensures Climbs(Recent(timeThre), minBucketNum, old(myCache[..]), h, 3, flow, myCache[..], true, flow)
    {
      InsertAtRoot(Recent(timeThre), minBucketNum, myCache[..], h, flow);
      var pos := levelStart[3] + index;
      if myCache[pos].count == 0 {
        myCache[pos] := flow;
      } else {
        var same := SameKey(flow, myCache[pos]);
        if same {
          IncrementItemBy(flow, pos, flow.count);
        } else if Sub32(flow.time, myCache[pos].time) >= timeThre {
          var lost := ExchangeItem(pos, flow);
        }
      }
    }

    /** The root of the time mode: the later item stays. */
    method RootByTime(flow: Item, index: nat, ghost h: nat)
      requires Valid() && Fitting(flow) && h < 8 * minBucketNum && index == Up(h, 3)
      modifies myCache
      ensures Sized(myCache[..], keyLen)
      ensures Climbs(ByTime, minBucketNum, old(myCache[..]), h, 3, flow, myCache[..], true, flow)
    {
      InsertAtRoot(ByTime, minBucketNum, myCache[..], h, flow);
      var pos := levelStart[3] + index;
      if myCache[pos].count == 0 {
        myCache[pos] := flow;
      } else {
        var same := SameKey(flow, myCache[pos]);
        if same {
          IncrementItem(flow, pos);
        } else if flow.time > myCache[pos].time {
          var lost := ExchangeItem(pos, flow);
        }
      }
    }

    /** The base insertion. */
    method Insert(item: Item, hashKey: Key, aging: nat)
      requires Valid() && Fitting(item)
      modifies myCache
      ensures Sized(myCache[..], keyLen)
      ensures myCache[..] == InsertFrom(Base(aging), minBucketNum, old(myCache[..]), HomeOf(hashKey), 0, item).cells
    {
      var index := hash(hashKey) % (levelStart[1] - levelStart[0]);
      ghost var h := HomeOf(hashKey);
      var done, flow := DLeftLevel(item, 0, index, aging, h);
      if !done {
        index := index / 2;
        done, flow := DLeftLevel(flow, 1, index, aging, h);
        if !done {
          index := index / 2;
          done, flow := MustKickLevel(Base(aging), flow, 2, index, h);
          if !done {
            index := index / 2;
            RootByWeight(Base(aging), flow, index, h);
          }
        }
      }
    }

    /** Insertion with thresholds on time and counter. */
    method InsertThre(item: Item, hashKey: Key, timeThre: nat, counterThre: nat)
      requires Valid() && Fitting(item)
      modifies myCache
      ensures Sized(myCache[..], keyLen)
      ensures myCache[..] == InsertFrom(Threshold(timeThre, counterThre), minBucketNum, old(myCache[..]),
              HomeOf(hashKey), 0, item).cells
    {
      var index := hash(hashKey) % (levelStart[1] - levelStart[0]);
      ghost var h := HomeOf(hashKey);
      var done, flow := DLeftLevelThre(item, 0, index, timeThre, counterThre, h);
      if !done {
        index := index / 2;
        done, flow := DLeftLevelThre(flow, 1, index, timeThre, counterThre, h);
        if !done {
          index := index / 2;
          done, flow := MustKickLevel(Threshold(timeThre, counterThre), flow, 2, index, h);
          if !done {
            index := index / 2;
            RootByWeight(Threshold(timeThre, counterThre), flow, index, h);
          }
        }
      }
    }

    /** Insertion that prefers recent flows. */
    method InsertForRecent(item: Item, hashKey: Key, timeThre: nat)
      requires Valid() && Fitting(item)
      modifies myCache
      ensures Sized(myCache[..], keyLen)
      ensures myCache[..] == InsertFrom(Recent(timeThre), minBucketNum, old(myCache[..]), HomeOf(hashKey), 0,
              item).cells
    {
      var index := hash(hashKey) % (levelStart[1] - levelStart[0]);
      ghost var h := HomeOf(hashKey);
      var done, flow := DLeftLevelThre(item, 0, index, timeThre, 0, h);
      if !done {
        index := index / 2;
        done, flow := DLeftLevelThre(flow, 1, index, timeThre, 0, h);
        if !done {
          index := index / 2;
          done, flow := MustKickLevel(Recent(timeThre), flow, 2, index, h);
          if !done {
            index := index / 2;
            RootByAge(timeThre, flow, index, h);
          }
        }
      }
    }

    /** Insertion that compares times only. */
    method InsertAgingByTime(item: Item, hashKey: Key)
      requires Valid() && Fitting(item)
      modifies myCache
      ensures Sized(myCache[..], keyLen)
      ensures myCache[..] == InsertFrom(ByTime, minBucketNum, old(myCache[..]), HomeOf(hashKey), 0, item).cells
    {
      var index := hash(hashKey) % (levelStart[1] - levelStart[0]);
      ghost var h := HomeOf(hashKey);
      var done, flow := DLeftLevelByTime(item, 0, index, h);
      if !done {
        index := index / 2;
        done, flow := DLeftLevelByTime(flow, 1, index, h);
        if !done {
          index := index / 2;
          done, flow := MustKickLevel(ByTime, flow, 2, index, h);
          if !done {
            index := index / 2;
            RootByTime(flow, index, h);
          }
        }
      }
    }

    // ----- burst mode

    /** Raises the burst field of a cell by one, up to 8. */
    method IncrementBurstyAt(pos: nat)
      requires pos < myCache.Length
      modifies myCache
      ensures myCache[..]
              == old(myCache[..])[pos := old(myCache[pos]).(count := IncrementBursty(old(myCache[pos]).count))]
    {
      var x := myCache[pos].count;
      var field := BurstyField(x);
      if field == 0 {
        myCache[pos] := myCache[pos].(count := SetBursty(x, 1));
      } else if field == 1 * C28 {
        myCache[pos] := myCache[pos].(count := SetBursty(x, 2));
      } else if field == 2 * C28 {
        myCache[pos] := myCache[pos].(count := SetBursty(x, 3));
      } else if field == 3 * C28 {
        myCache[pos] := myCache[pos].(count := SetBursty(x, 4));
      } else if field == 4 * C28 {
        myCache[pos] := myCache[pos].(count := SetBursty(x, 5));
      } else if field == 5 * C28 {
        myCache[pos] := myCache[pos].(count := SetBursty(x, 6));
      } else if field == 6 * C28 {
        myCache[pos] := myCache[pos].(count := SetBursty(x, 7));
      } else if field == 7 * C28 {
        myCache[pos] := myCache[pos].(count := SetBursty(x, 8));
      }
    }

    /** A same-key merge in burst mode; 1 if the burst field was full. */
    method IncrementSameKey(pos: nat, item: Item) returns (ret: int)
      requires pos < myCache.Length
      modifies myCache
      ensures var b := MergeBursty(1, old(myCache[pos]), item);
              myCache[..] == old(myCache[..])[pos := b.hit.cell] && ret == b.ret
    {
      var time := if item.time > myCache[pos].time then item.time else myCache[pos].time;
      myCache[pos] := Item(myCache[pos].key, Add32(myCache[pos].count, item.count), time);
      if BurstyField(myCache[pos].count) == 8 * C28 { return 1; }
      IncrementBurstyAt(pos);
      return 0;
    }

    /** Swaps the resident with the incoming item, whose burst field starts at 1; the resident's is cleared. */
    method ExchangeItemWithBursty(pos: nat, item: Item) returns (carried: Item)
      requires pos < myCache.Length
      modifies myCache
      ensures var hit := ExchangeBursty(old(myCache[pos]), item);
              myCache[..] == old(myCache[..])[pos := hit.cell] && carried == hit.item
    {
      carried := Item(myCache[pos].key, SetBursty(myCache[pos].count, 0), myCache[pos].time);
      myCache[pos] := Item(item.key, SetBursty(item.count, 1), item.time);
    }

    /** One level of burst insertion. */
    method BurstLevel(item: Item, level: nat, index: nat, ghost h: nat) returns (done: bool, ret: int, carried: Item)
      requires Valid() && Fitting(item) && level < LEVELS && h < 8 * minBucketNum && index == Up(h, level)
      modifies myCache
      ensures Sized(myCache[..], keyLen) && (!done ==> |carried.key| == keyLen)
      ensures BurstClimbs(minBucketNum, old(myCache[..]), h, level, item, myCache[..], done, ret, carried)
    {
      ghost var before := myCache[..];
      PosInLevel(minBucketNum, h, level);
      var pos := levelStart[level] + index;
      done, ret, carried := false, 0, item;
      if myCache[pos].count == 0 {
        myCache[pos] := Item(item.key, SetBursty(item.count, 1), item.time);
        done := true;
      } else {
        var same := SameKey(item, myCache[pos]);
        if same {
          ret := IncrementSameKey(pos, item);
          if level == 0 { ret := 0; }
          done := true;
        } else {
          var kick := level == 2;
          if level < 2 {
            kick := CounterValue(myCache[pos].count) == 1;
          } else if level == 3 {
            kick := CounterValue(myCache[pos].count) < item.count;
          }
          if kick { carried := ExchangeItemWithBursty(pos, item); }
        }
      }
      BurstVisitClimbs(minBucketNum, before, h, level, item, myCache[..], done, ret, carried);
    }

    /** Burst insertion; 1 reports a burst. */
    method InsertForBurst(item: Item, hashKey: Key) returns (ret: int)
      requires Valid() && Fitting(item)
      modifies myCache
      ensures Sized(myCache[..], keyLen)
      ensures BurstResult(myCache[..], ret) == BurstFrom(minBucketNum, old(myCache[..]), HomeOf(hashKey), 0, item)
    {
      var index := hash(hashKey) % (levelStart[1] - levelStart[0]);
      ghost var h := HomeOf(hashKey);
      var done, flow;
      done, ret, flow := BurstLevel(item, 0, index, h);
      if !done {
        index := index / 2;
        done, ret, flow := BurstLevel(flow, 1, index, h);
        if !done {
          index := index / 2;
          done, ret, flow := BurstLevel(flow, 2, index, h);
          if !done {
            index := index / 2;
            done, ret, flow := BurstLevel(flow, 3, index, h);
            if !done { ret := 0; }
          }
        }
      }
    }

    /** Whether cell i lies on the branch of a key. */
    method Check(i: nat, hashKey: Key) returns (found: bool)
      requires Valid()
      ensures found <==> Passes(minBucketNum, HomeOf(hashKey), i)
    {
      var index := hash(hashKey) % (levelStart[1] - levelStart[0]);
      ghost var h := index;
      for j := 0 to LEVELS
        invariant j < LEVELS ==> index == Up(h, j)
        invariant forall l: nat | l < j :: i != Pos(minBucketNum, h, l)
      {
        if i == index + levelStart[j] {
          assert h == HomeOf(hashKey) && i == Pos(minBucketNum, HomeOf(hashKey), j);
          return true;
        }
        index := index / 2;
      }
      return false;
    }
  }
}
