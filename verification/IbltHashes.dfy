/** The filter bits and table cells of a key, told by the hash functions themselves: which keys of a stream enter the
    table, and which of them a dump is bound to report. */
module IbltHashes {
  import opened Bytes
  import opened IbltSpec

  // ----- the filter

  /** `b` is a filter bit of `key`. */
  ghost predicate HasBit(s: Shape, key: Key, b: nat)
    requires s.Valid()
  {
    exists i: nat :: i < s.bfK && s.hash(i, key) % s.wBf == b
  }

  /** `b` is a filter bit of some key of `data`. */
  ghost predicate BitOfSome(s: Shape, data: seq<Key>, b: nat)
    requires s.Valid()
  {
    exists k :: k in data && HasBit(s, k, b)
  }

  /** Some filter hash of `key` picks a bit that no filter hash of a key of `before` picks. */
  ghost predicate HasFreshBit(s: Shape, before: seq<Key>, key: Key)
    requires s.Valid()
  {
    exists i: nat :: i < s.bfK && !BitOfSome(s, before, s.hash(i, key) % s.wBf)
  }

  lemma MarkedHashes(s: Shape, bits: seq<bool>, key: Key, b: nat)
    requires s.Valid() && |bits| == s.wBf && b < s.wBf
    ensures Marked(s, bits, key, s.bfK)[b] <==> bits[b] || HasBit(s, key, b)
  {
    MarkedBits(s, bits, key, s.bfK);
    if HasBit(s, key, b) {
      var i: nat :| i < s.bfK && s.hash(i, key) % s.wBf == b;
      assert s.Bit(i, key) == b;
    }
  }

  /** After a stream exactly the filter bits of its keys are set. */
  lemma {:induction false} StreamBits(s: Shape, data: seq<Key>, b: nat)
    requires s.Valid() && b < s.wBf
    ensures Building(s, Empty(s), data).bits[b] <==> BitOfSome(s, data, b)
    decreases |data|
  {
    if data != [] {
      var rest, k := data[..|data| - 1], data[|data| - 1];
      StreamBits(s, rest, b);
      MarkedHashes(s, Building(s, Empty(s), rest).bits, k, b);
      assert data == rest + [k];
      if BitOfSome(s, data, b) && !HasBit(s, k, b) {
        var x :| x in data && HasBit(s, x, b);
        assert x in rest;
      }
    }
  }

  /** The bits that the first bfK hashes of `key` pick are all set. */
  ghost predicate AllBitsSet(s: Shape, bits: seq<bool>, key: Key)
    requires s.Valid() && |bits| == s.wBf
  {
    forall h: nat | h < s.bfK :: bits[s.hash(h, key) % s.wBf]
  }

  lemma InFilterHashes(s: Shape, bits: seq<bool>, key: Key)
    requires s.Valid() && |bits| == s.wBf
    ensures InFilter(s, bits, key) <==> AllBitsSet(s, bits, key)
  {
    forall h: nat | h < s.bfK ensures s.Bit(h, key) == s.hash(h, key) % s.wBf {
    }
  }

  /** Of the bits of a filter exactly those that the first bfK hashes of `key` pick were set. */
  ghost predicate BitsMarked(s: Shape, before: seq<bool>, after: seq<bool>, key: Key)
    requires s.Valid() && |before| == |after| == s.wBf
  {
    forall b: nat | b < s.wBf :: after[b] <==> before[b] || HasBit(s, key, b)
  }

  lemma MarkedIsMarking(s: Shape, bits: seq<bool>, key: Key)
    requires s.Valid() && |bits| == s.wBf
    ensures BitsMarked(s, bits, Marked(s, bits, key, s.bfK), key)
  {
    forall b: nat | b < s.wBf ensures Marked(s, bits, key, s.bfK)[b] <==> bits[b] || HasBit(s, key, b) {
      MarkedHashes(s, bits, key, b);
    }
  }

  /** The filter takes a key for an old one exactly if all its bits are bits of keys of the stream. */
  lemma StreamFilter(s: Shape, data: seq<Key>, key: Key)
    requires s.Valid()
    ensures InFilter(s, Building(s, Empty(s), data).bits, key) <==> !HasFreshBit(s, data, key)
  {
    var bits := Building(s, Empty(s), data).bits;
    InFilterHashes(s, bits, key);
    forall i: nat | i < s.bfK
      ensures bits[s.hash(i, key) % s.wBf] <==> BitOfSome(s, data, s.hash(i, key) % s.wBf)
    {
      StreamBits(s, data, s.hash(i, key) % s.wBf);
    }
  }

  /** The packet at place n brings its key into the table. */
  ghost predicate EntersAt(s: Shape, data: seq<Key>, key: Key, n: nat)
    requires s.Valid()
  {
    n < |data| && data[n] == key && HasFreshBit(s, data[..n], key)
  }

  /** A key is in the table of a stream exactly if one of its packets found one of its bits unused by the packets
      before it. */
  lemma {:induction false} StreamTable(s: Shape, data: seq<Key>, key: Key)
    requires s.Valid()
    ensures key in Building(s, Empty(s), data).table <==> exists n: nat :: EntersAt(s, data, key, n)
    decreases |data|
  {
    if data != [] {
      var m := |data| - 1;
      var rest := data[..m];
      StreamTable(s, rest, key);
      StreamFilter(s, rest, data[m]);
      forall n: nat | n < m ensures EntersAt(s, data, key, n) <==> EntersAt(s, rest, key, n) {
        assert data[..n] == rest[..n];
      }
      if n: nat :| EntersAt(s, data, key, n) {
        assert n < m || n == m;
      }
      if key in Building(s, Empty(s), rest).table {
        var n: nat :| EntersAt(s, rest, key, n);
        assert EntersAt(s, data, key, n);
      } else if data[m] == key && HasFreshBit(s, rest, key) {
        assert EntersAt(s, data, key, m);
      }
    }
  }

  /** The keys of a stream of which some packet found one of their bits unused. */
  ghost function Entering(s: Shape, data: seq<Key>): set<Key>
    requires s.Valid()
  {
    set key | key in data && exists n: nat :: EntersAt(s, data, key, n)
  }

  lemma TableIsEntering(s: Shape, data: seq<Key>)
    requires s.Valid()
    ensures Building(s, Empty(s), data).table == Entering(s, data)
  {
    forall key ensures key in Building(s, Empty(s), data).table <==> key in Entering(s, data) {
      StreamTable(s, data, key);
      if n: nat :| EntersAt(s, data, key, n) {
        assert data[n] in data;
      }
    }
  }

  // ----- the cells

  /** A key sits in a cell as often as different table hashes of it pick that cell. */
  lemma {:induction false} HitsCount(s: Shape, key: Key, c: nat, n: nat)
    requires s.Valid()
    ensures s.Hits(key, c, n) == |set h: nat | s.bfK <= h < s.bfK + n && s.hash(h, key) % s.wIblt == c|
    decreases n
  {
    var now := set h: nat | s.bfK <= h < s.bfK + n && s.hash(h, key) % s.wIblt == c;
    if n == 0 {
      assert now == {};
    } else {
      HitsCount(s, key, c, n - 1);
      var before := set h: nat | s.bfK <= h < s.bfK + (n - 1) && s.hash(h, key) % s.wIblt == c;
      var last := s.bfK + (n - 1);
      assert s.Cell(n - 1, key) == s.hash(last, key) % s.wIblt;
      if s.hash(last, key) % s.wIblt == c {
        assert now == before + {last};
      } else {
        assert now == before;
      }
    }
  }

  /** The multiplicity of a key in a cell is the number of table hashes, those numbered from bfK on, that pick it. */
  lemma MultCounts(s: Shape, key: Key, c: nat)
    requires s.Valid()
    ensures s.Mult(key, c) == |set h: nat | s.bfK <= h < s.bfK + s.ibltK && s.hash(h, key) % s.wIblt == c|
  {
    HitsCount(s, key, c, s.ibltK);
  }

  /** The hash numbered h, a table hash, is the only table hash of `key` that picks cell `c`. */
  ghost predicate HitsOnce(s: Shape, key: Key, h: nat, c: nat)
    requires s.Valid()
  {
    s.bfK <= h < s.bfK + s.ibltK && s.hash(h, key) % s.wIblt == c
    && forall i: nat | s.bfK <= i < s.bfK + s.ibltK && i != h :: s.hash(i, key) % s.wIblt != c
  }

  /** No table hash of `key` picks cell `c`. */
  ghost predicate Misses(s: Shape, key: Key, c: nat)
    requires s.Valid()
  {
    forall i: nat | s.bfK <= i < s.bfK + s.ibltK :: s.hash(i, key) % s.wIblt != c
  }

  /** `key` is in `t`, and its hash numbered h picks a cell that no other table hash of it, and no table hash of another
      key of `t`, picks. */
  ghost predicate OwnsCell(s: Shape, t: set<Key>, key: Key, h: nat)
    requires s.Valid()
  {
    key in t && HitsOnce(s, key, h, s.hash(h, key) % s.wIblt)
    && forall k | k in t && k != key :: Misses(s, k, s.hash(h, key) % s.wIblt)
  }

  lemma HitsOnceMult(s: Shape, key: Key, h: nat, c: nat)
    requires s.Valid() && HitsOnce(s, key, h, c)
    ensures s.Mult(key, c) == 1
  {
    MultCounts(s, key, c);
    var hits := set i: nat | s.bfK <= i < s.bfK + s.ibltK && s.hash(i, key) % s.wIblt == c;
    assert hits == {h};
  }

  lemma MissesMult(s: Shape, key: Key, c: nat)
    requires s.Valid()
    ensures Misses(s, key, c) <==> s.Mult(key, c) == 0
  {
    MultCounts(s, key, c);
    var hits := set i: nat | s.bfK <= i < s.bfK + s.ibltK && s.hash(i, key) % s.wIblt == c;
    if Misses(s, key, c) {
      assert hits == {};
    } else {
      var i: nat :| s.bfK <= i < s.bfK + s.ibltK && s.hash(i, key) % s.wIblt == c;
      assert i in hits;
    }
  }

  lemma OnlyHit(s: Shape, key: Key, c: nat) returns (h: nat)
    requires s.Valid() && s.Mult(key, c) == 1
    ensures HitsOnce(s, key, h, c)
  {
    MultCounts(s, key, c);
    var hits := set i: nat | s.bfK <= i < s.bfK + s.ibltK && s.hash(i, key) % s.wIblt == c;
    h :| h in hits;
    assert |hits - {h}| == 0;
    assert hits == {h};
    forall i: nat | s.bfK <= i < s.bfK + s.ibltK && i != h ensures s.hash(i, key) % s.wIblt != c {
      assert i !in hits;
    }
  }

  /** A cell that only one key of the table reaches holds that key as often as it is hit. */
  lemma {:induction false} LonelyLoad(s: Shape, ks: seq<Key>, t: set<Key>, key: Key, c: nat)
    requires s.Valid() && NoDup(ks) && forall k | k in ks && k in t && k != key :: s.Mult(k, c) == 0
    ensures Load(s, ks, t, c) == if key in ks && key in t then s.Mult(key, c) else 0
    decreases |ks|
  {
    if ks != [] {
      var n := |ks| - 1;
      assert ks == ks[..n] + [ks[n]];
      LonelyLoad(s, ks[..n], t, key, c);
    }
  }

  /** A cell of its own gets a key out of the core. */
  lemma OwnCellShows(s: Shape, ks: seq<Key>, t: set<Key>, key: Key, h: nat)
    requires s.Valid() && NoDup(ks) && t <= Elems(ks) && OwnsCell(s, t, key, h)
    ensures key !in Core(s, ks, t)
  {
    var c := s.hash(h, key) % s.wIblt;
    HitsOnceMult(s, key, h, c);
    InElems(ks, key);
    forall k | k in ks && k in t && k != key ensures s.Mult(k, c) == 0 {
      MissesMult(s, k, c);
    }
    LonelyLoad(s, ks, t, key, c);
    forall u | u <= t && IsCore(s, ks, u) ensures key !in u {
      PeelableOutsideCores(s, ks, t, u, key, c);
    }
  }

  /** Every key of `t` that has a cell of its own is among the reported ones. */
  ghost predicate OwnersReported(s: Shape, t: set<Key>, result: map<Key, int>)
    requires s.Valid()
  {
    forall key, h: nat | OwnsCell(s, t, key, h) :: key in result
  }

  /** Whatever empties a table down to its core has reported every key with a cell of its own. */
  lemma OwnersOutsideCore(s: Shape, ks: seq<Key>, t: set<Key>, result: map<Key, int>)
    requires s.Valid() && NoDup(ks) && t <= Elems(ks) && t - Core(s, ks, t) <= result.Keys
    ensures OwnersReported(s, t, result)
  {
    forall key, h: nat | OwnsCell(s, t, key, h) ensures key in result {
      OwnCellShows(s, ks, t, key, h);
    }
  }

  // ----- one packet

  lemma OneEnters(s: Shape, key: Key)
    requires s.Valid()
    ensures Entering(s, [key]) == if s.bfK > 0 then {key} else {}
  {
    if s.bfK > 0 {
      assert !BitOfSome(s, [key][..0], s.hash(0, key) % s.wBf);
      assert EntersAt(s, [key], key, 0);
    }
  }

  /** Some table hash of `key` picks a cell that no other table hash of it picks. */
  ghost predicate HasSingleCell(s: Shape, key: Key)
    requires s.Valid()
  {
    exists h: nat, c: nat :: HitsOnce(s, key, h, c)
  }

  /** Alone in a table, a key is stuck exactly if each of its cells is hit by at least two of its hashes. */
  lemma AloneStuck(s: Shape, key: Key)
    requires s.Valid()
    ensures Core(s, [key], {key}) == if HasSingleCell(s, key) then {} else {key}
  {
    forall c: nat | c < s.wIblt ensures Load(s, [key], {key}, c) == s.Mult(key, c) {
      LonelyLoad(s, [key], {key}, key, c);
    }
    if HasSingleCell(s, key) {
      var h: nat, c: nat :| HitsOnce(s, key, h, c);
      InElems([key], key);
      OwnCellShows(s, [key], {key}, key, h);
    } else {
      forall c: nat | c < s.wIblt ensures Load(s, [key], {key}, c) != 1 {
        if s.Mult(key, c) == 1 { var h := OnlyHit(s, key, c); }
      }
      assert IsCore(s, [key], {key});
      assert key in Core(s, [key], {key});
    }
  }
}
