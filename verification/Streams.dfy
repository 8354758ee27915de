/** Streams of flow keys as the measurement tasks read them: the front part of each tuple, up to a number of flows. */
module Streams {
  import opened Bytes

  /** The keys of a list of tuples: their first len bytes. */
  function KeysOf(tuples: seq<Key>, len: nat): (keys: seq<Key>)
    requires forall i | 0 <= i < |tuples| :: |tuples[i]| >= len
    ensures |keys| == |tuples|
  {
    seq(|tuples|, i requires 0 <= i < |tuples| => tuples[i][..len])
  }

  ghost function Distinct(keys: seq<Key>): set<Key> {
    set k | k in keys
  }

  /** No nonempty front part shorter than n has maxFlowNum flows. */
  ghost predicate FewFlows(keys: seq<Key>, maxFlowNum: nat, n: nat)
    requires n <= |keys| + 1
  {
    forall j {:trigger keys[..j]} | 0 < j < n :: |Distinct(keys[..j])| < maxFlowNum
  }

  lemma FewFlowsNext(keys: seq<Key>, maxFlowNum: nat, n: nat)
    requires n <= |keys| && FewFlows(keys, maxFlowNum, n) && |Distinct(keys[..n])| < maxFlowNum
    ensures FewFlows(keys, maxFlowNum, n + 1)
  {
  }

  /** A measurement reads a stream key by key, and stops behind the first one that brings the number of flows to
      maxFlowNum. */
  ghost predicate StopsAt(keys: seq<Key>, maxFlowNum: nat, n: nat) {
    && n <= |keys| && (keys != [] ==> n > 0)
    && (n == |keys| || |Distinct(keys[..n])| >= maxFlowNum)
    && FewFlows(keys, maxFlowNum, n)
  }

  /** Where a measurement that has read i keys stops. */
  ghost function StopFrom(keys: seq<Key>, maxFlowNum: nat, i: nat): (n: nat)
    requires i <= |keys|
    ensures i <= n <= |keys|
    decreases |keys| - i
  {
    if i == |keys| then i
    else if |Distinct(keys[..i + 1])| >= maxFlowNum then i + 1
    else StopFrom(keys, maxFlowNum, i + 1)
  }

  lemma {:induction false} StopFromStops(keys: seq<Key>, maxFlowNum: nat, i: nat)
    requires i <= |keys| && (keys != [] && i == |keys| ==> i > 0) && FewFlows(keys, maxFlowNum, i + 1)
    ensures StopsAt(keys, maxFlowNum, StopFrom(keys, maxFlowNum, i))
    decreases |keys| - i
  {
    if i < |keys| && |Distinct(keys[..i + 1])| < maxFlowNum {
      FewFlowsNext(keys, maxFlowNum, i + 1);
      StopFromStops(keys, maxFlowNum, i + 1);
    }
  }
}
