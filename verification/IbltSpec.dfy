/** What a FlowRadar table holds: every cell is a sum, with hash multiplicity, over
    the keys that are still in the table; and what peeling can and cannot remove. */
module IbltSpec {
  import opened Bytes

  /** One cell of the invertible table. */
  datatype Node = Node(flowSum: Key, flowNum: int, packetNum: int)

  /** The sizes of a table and its hash functions; `hash(i, key)` is the i-th of them. */
  datatype Shape = Shape(keyLen: nat, bfK: nat, ibltK: nat, wBf: nat, wIblt: nat, hash: (nat, Key) -> nat) {
    predicate Valid() {
      wBf > 0 && wBf % 64 == 0 && wIblt > 0 && bfK + ibltK <= 7
    }

    /** The filter bit the i-th filter hash picks for `key`. */
    function Bit(i: nat, key: Key): nat
      requires Valid()
    {
      hash(i, key) % wBf
    }

    /** The cell the j-th table hash picks for `key`; two of them may coincide. */
    function Cell(j: nat, key: Key): nat
      requires Valid()
    {
      hash(j + bfK, key) % wIblt
    }

    /** How many of the first `n` table hashes of `key` pick cell `c`. */
    function Hits(key: Key, c: nat, n: nat): nat
      requires Valid()
    {
      if n == 0 then 0 else Hits(key, c, n - 1) + if Cell(n - 1, key) == c then 1 else 0
    }

    /** The hash multiplicity of `key` in cell `c`. */
    function Mult(key: Key, c: nat): nat
      requires Valid()
    {
      Hits(key, c, ibltK)
    }
  }

  ghost predicate SameLen(s: Shape, ks: seq<Key>) {
    ks == [] || (|ks[|ks| - 1]| == s.keyLen && SameLen(s, ks[..|ks| - 1]))
  }

  function Zero(n: nat): Key {
    seq(n, _ => 0)
  }

  /** `key` XOR-ed into `base` n times. */
  function XorTimes(base: Key, key: Key, n: nat): (r: Key)
    ensures |r| == |base|
  {
    if n % 2 == 1 then Xor(base, key) else base
  }

  /** XOR over the keys of `ks` that are in `t`, with their multiplicity in cell `c`. */
  function XorOf(s: Shape, ks: seq<Key>, t: set<Key>, c: nat): (r: Key)
    requires s.Valid()
    ensures |r| == s.keyLen
  {
    if ks == [] then Zero(s.keyLen)
    else
      var rest := XorOf(s, ks[..|ks| - 1], t, c);
      var k := ks[|ks| - 1];
      if k in t then XorTimes(rest, k, s.Mult(k, c)) else rest
  }

  /** Total multiplicity in cell `c` of the keys of `ks` that are in `t`. */
  function Load(s: Shape, ks: seq<Key>, t: set<Key>, c: nat): nat
    requires s.Valid()
  {
    if ks == [] then 0
    else
      var k := ks[|ks| - 1];
      Load(s, ks[..|ks| - 1], t, c) + if k in t then s.Mult(k, c) else 0
  }

  function Get(m: map<Key, int>, k: Key): int {
    if k in m then m[k] else 0
  }

  /** Packets that `ks` put in cell `c` when key k weighs `w[k]`. */
  function Packets(s: Shape, ks: seq<Key>, w: map<Key, int>, c: nat): int
    requires s.Valid()
  {
    if ks == [] then 0
    else
      var k := ks[|ks| - 1];
      Packets(s, ks[..|ks| - 1], w, c) + s.Mult(k, c) * Get(w, k)
  }

  /** The content of cell `c`. */
  function CellOf(s: Shape, ks: seq<Key>, t: set<Key>, w: map<Key, int>, c: nat): Node
    requires s.Valid()
  {
    Node(XorOf(s, ks, t, c), Load(s, ks, t, c), Packets(s, ks, w, c))
  }

  /** A cell after n copies of a key with `f` packets each were taken out. */
  function Take(node: Node, key: Key, n: nat, f: int): Node {
    Node(XorTimes(node.flowSum, key, n), node.flowNum - n, node.packetNum - n * f)
  }

  /** A cell after n copies of a key with `f` packets each were added; the flow fields change only if it is admitted. */
  function Put(node: Node, key: Key, n: nat, f: int, admitted: bool): Node {
    if admitted then Node(XorTimes(node.flowSum, key, n), node.flowNum + n, node.packetNum + n * f)
    else node.(packetNum := node.packetNum + n * f)
  }

  lemma TakeNext(node: Node, key: Key, n: nat, f: int)
    ensures var o := Take(node, key, n, f);
            Take(node, key, n + 1, f) == Node(Xor(o.flowSum, key), o.flowNum - 1, o.packetNum - f)
  {
    XorSelf(node.flowSum, key);
    assert (n + 1) * f == n * f + f;
  }

  lemma PutNext(node: Node, key: Key, n: nat, f: int, admitted: bool)
    ensures var o := Put(node, key, n, f, admitted);
            Put(node, key, n + 1, f, admitted)
            == if admitted then Node(Xor(o.flowSum, key), o.flowNum + 1, o.packetNum + f)
               else o.(packetNum := o.packetNum + f)
  {
    XorSelf(node.flowSum, key);
    assert (n + 1) * f == n * f + f;
  }

  // ----- sums over a set with one key more or less

  lemma {:induction false} Frame(s: Shape, ks: seq<Key>, t: set<Key>, t': set<Key>, w: map<Key, int>, w': map<Key,
                                 int>, c: nat)
    requires s.Valid()
    requires forall k | k in ks :: (k in t <==> k in t') && Get(w, k) == Get(w', k)
    ensures CellOf(s, ks, t, w, c) == CellOf(s, ks, t', w', c)
  {
    if ks != [] {
      assert ks[|ks| - 1] in ks;
      Frame(s, ks[..|ks| - 1], t, t', w, w', c);
    }
  }

  /** Taking key `k` and `f` of its packets out of the table changes cell `c` by exactly its multiplicity. */
  lemma {:induction false} TakeOut(s: Shape, ks: seq<Key>, t: set<Key>, w: map<Key, int>, k: Key, f: int, c: nat)
    requires s.Valid() && NoDup(ks) && k in ks && k in t
    ensures CellOf(s, ks, t - {k}, w[k := Get(w, k) - f], c) == Take(CellOf(s, ks, t, w, c), k, s.Mult(k, c), f)
  {
    var n := |ks| - 1;
    var w' := w[k := Get(w, k) - f];
    var mk := s.Mult(k, c);
    if ks[n] == k {
      Frame(s, ks[..n], t, t - {k}, w, w', c);
      XorSelf(XorOf(s, ks[..n], t, c), k);
      assert mk * (Get(w, k) - f) == mk * Get(w, k) - mk * f;
    } else {
      TakeOut(s, ks[..n], t, w, k, f, c);
      XorSwap(XorOf(s, ks[..n], t, c), k, ks[n]);
    }
  }

  /** Packets of a key already known only change the packet sum. */
  lemma {:induction false} AddPackets(s: Shape, ks: seq<Key>, t: set<Key>, w: map<Key, int>, k: Key, f: int, c: nat)
    requires s.Valid() && NoDup(ks) && k in ks
    ensures CellOf(s, ks, t, w[k := Get(w, k) + f], c)
         == Put(CellOf(s, ks, t, w, c), k, s.Mult(k, c), f, false)
  {
    var n := |ks| - 1;
    var w' := w[k := Get(w, k) + f];
    if ks[n] == k {
      Frame(s, ks[..n], t, t, w, w', c);
      assert s.Mult(k, c) * (Get(w, k) + f) == s.Mult(k, c) * Get(w, k) + s.Mult(k, c) * f;
    } else {
      AddPackets(s, ks[..n], t, w, k, f, c);
    }
  }

  /** A key never seen before contributes its multiplicity, to the flow fields only if it is admitted. */
  lemma AddKey(s: Shape, ks: seq<Key>, t: set<Key>, w: map<Key, int>, k: Key, f: int, admitted: bool, c: nat)
    requires s.Valid() && k !in ks && k !in t && k !in w
    ensures CellOf(s, ks + [k], if admitted then t + {k} else t, w[k := f], c)
         == Put(CellOf(s, ks, t, w, c), k, s.Mult(k, c), f, admitted)
  {
    var t' := if admitted then t + {k} else t;
    assert (ks + [k])[..|ks|] == ks;
    Frame(s, ks, t, t', w, w[k := f], c);
  }

  function WithKey(ks: seq<Key>, k: Key): seq<Key> {
    if k in ks then ks else ks + [k]
  }

  ghost function Elems(ks: seq<Key>): set<Key> {
    if ks == [] then {} else Elems(ks[..|ks| - 1]) + {ks[|ks| - 1]}
  }

  lemma {:induction false} InElems(ks: seq<Key>, k: Key)
    ensures k in Elems(ks) <==> k in ks
  {
    if ks != [] { InElems(ks[..|ks| - 1], k); }
  }

  /** `ks` are distinct keys of the right length, `t` some of them, and `w` gives each a packet count. */
  ghost predicate WellFormed(s: Shape, ks: seq<Key>, t: set<Key>, w: map<Key, int>) {
    NoDup(ks) && SameLen(s, ks) && t <= Elems(ks) && w.Keys == Elems(ks)
  }

  /** What a table with this content looks like. */
  function CellsOf(s: Shape, ks: seq<Key>, t: set<Key>, w: map<Key, int>): seq<Node>
    requires s.Valid()
  {
    seq(s.wIblt, c requires 0 <= c => CellOf(s, ks, t, w, c))
  }

  function PutAll(s: Shape, cells: seq<Node>, k: Key, n: nat, f: int, admitted: bool): seq<Node>
    requires s.Valid()
  {
    seq(|cells|, c requires 0 <= c < |cells| => Put(cells[c], k, s.Hits(k, c, n), f, admitted))
  }

  function TakeAll(s: Shape, cells: seq<Node>, k: Key, n: nat, f: int): seq<Node>
    requires s.Valid()
  {
    seq(|cells|, c requires 0 <= c < |cells| => Take(cells[c], k, s.Hits(k, c, n), f))
  }

  /** Putting a key into all its cells is inserting it. */
  lemma Inserted(s: Shape, ks: seq<Key>, t: set<Key>, w: map<Key, int>, k: Key, f: int, admitted: bool)
    requires s.Valid() && WellFormed(s, ks, t, w) && |k| == s.keyLen && (admitted ==> k !in ks)
    ensures var t' := if admitted then t + {k} else t;
            var w' := w[k := Get(w, k) + f];
            WellFormed(s, WithKey(ks, k), t', w')
            && CellsOf(s, WithKey(ks, k), t', w') == PutAll(s, CellsOf(s, ks, t, w), k, s.ibltK, f, admitted)
  {
    assert k !in ks ==> (ks + [k])[..|ks|] == ks;
    InElems(ks, k);
    forall c: nat | c < s.wIblt
      ensures CellOf(s, WithKey(ks, k), if admitted then t + {k} else t, w[k := Get(w, k) + f], c)
           == Put(CellOf(s, ks, t, w, c), k, s.Mult(k, c), f, admitted)
    {
      if k in ks {
        AddPackets(s, ks, t, w, k, f, c);
      } else {
        AddKey(s, ks, t, w, k, f, admitted, c);
      }
    }
  }

  /** Taking a key of the table out of all its cells is removing it. */
  lemma Removed(s: Shape, ks: seq<Key>, t: set<Key>, w: map<Key, int>, k: Key, f: int)
    requires s.Valid() && WellFormed(s, ks, t, w) && k in t
    ensures var w' := w[k := Get(w, k) - f];
            WellFormed(s, ks, t - {k}, w')
            && CellsOf(s, ks, t - {k}, w') == TakeAll(s, CellsOf(s, ks, t, w), k, s.ibltK, f)
  {
    InElems(ks, k);
    forall c: nat | c < s.wIblt
      ensures CellOf(s, ks, t - {k}, w[k := Get(w, k) - f], c) == Take(CellOf(s, ks, t, w, c), k, s.Mult(k, c), f)
    {
      TakeOut(s, ks, t, w, k, f, c);
    }
  }

  // ----- the Bloom filter

  /** All filter bits of `key` are set. */
  ghost predicate InFilter(s: Shape, bits: seq<bool>, key: Key)
    requires s.Valid() && |bits| == s.wBf
  {
    forall i: nat | i < s.bfK :: bits[s.Bit(i, key)]
  }

  ghost predicate AllInFilter(s: Shape, bits: seq<bool>, ks: seq<Key>)
    requires s.Valid() && |bits| == s.wBf
  {
    ks == [] || (InFilter(s, bits, ks[|ks| - 1]) && AllInFilter(s, bits, ks[..|ks| - 1]))
  }

  /** A key in the list is never taken for a new one. */
  lemma {:induction false} KnownIsSeen(s: Shape, bits: seq<bool>, ks: seq<Key>, k: Key)
    requires s.Valid() && |bits| == s.wBf && AllInFilter(s, bits, ks) && k in ks
    ensures InFilter(s, bits, k)
  {
    if ks[|ks| - 1] != k { KnownIsSeen(s, bits, ks[..|ks| - 1], k); }
  }

  /** The filter after the first `n` filter hashes of `key` set their bits. */
  function Marked(s: Shape, bits: seq<bool>, key: Key, n: nat): (r: seq<bool>)
    requires s.Valid() && |bits| == s.wBf
    ensures |r| == |bits|
  {
    if n == 0 then bits else Marked(s, bits, key, n - 1)[s.Bit(n - 1, key) := true]
  }

  /** Marking sets exactly the bits of the key. */
  lemma {:induction false} MarkedBits(s: Shape, bits: seq<bool>, key: Key, n: nat)
    requires s.Valid() && |bits| == s.wBf
    ensures forall b | 0 <= b < |bits| ::
              Marked(s, bits, key, n)[b] <==> bits[b] || exists i: nat :: i < n && s.Bit(i, key) == b
  {
    if n > 0 { MarkedBits(s, bits, key, n - 1); }
  }

  lemma {:induction false} MarkedAll(s: Shape, bits: seq<bool>, key: Key, ks: seq<Key>)
    requires s.Valid() && |bits| == s.wBf && AllInFilter(s, bits, ks)
    ensures AllInFilter(s, Marked(s, bits, key, s.bfK), WithKey(ks, key))
  {
    MarkedMono(s, bits, key, ks);
    MarkedBits(s, bits, key, s.bfK);
    assert key !in ks ==> (ks + [key])[..|ks|] == ks;
  }

  lemma {:induction false} MarkedMono(s: Shape, bits: seq<bool>, key: Key, ks: seq<Key>)
    requires s.Valid() && |bits| == s.wBf && AllInFilter(s, bits, ks)
    ensures AllInFilter(s, Marked(s, bits, key, s.bfK), ks)
  {
    if ks != [] {
      MarkedMono(s, bits, key, ks[..|ks| - 1]);
      MarkedBits(s, bits, key, s.bfK);
    }
  }

  // ----- reading a cell of load 1

  lemma {:induction false} LoadMono(s: Shape, ks: seq<Key>, t: set<Key>, t': set<Key>, c: nat)
    requires s.Valid() && t <= t'
    ensures Load(s, ks, t, c) <= Load(s, ks, t', c)
  {
    if ks != [] { LoadMono(s, ks[..|ks| - 1], t, t', c); }
  }

  lemma {:induction false} LoadAtLeast(s: Shape, ks: seq<Key>, t: set<Key>, k: Key, c: nat)
    requires s.Valid() && k in ks && k in t
    ensures s.Mult(k, c) <= Load(s, ks, t, c)
  {
    var n := |ks| - 1;
    if ks[n] != k { LoadAtLeast(s, ks[..n], t, k, c); }
  }

  lemma {:induction false} LoadZero(s: Shape, ks: seq<Key>, t: set<Key>, c: nat)
    requires s.Valid() && Load(s, ks, t, c) == 0 && SameLen(s, ks)
    ensures XorOf(s, ks, t, c) == Zero(s.keyLen)
    ensures forall k | k in ks && k in t :: s.Mult(k, c) == 0
  {
    if ks != [] { LoadZero(s, ks[..|ks| - 1], t, c); }
  }

  /** Weights of keys that do not reach cell `c`, or are 0, add nothing to it. */
  lemma {:induction false} PacketsZero(s: Shape, ks: seq<Key>, w: map<Key, int>, c: nat)
    requires s.Valid() && forall k | k in ks :: s.Mult(k, c) == 0 || Get(w, k) == 0
    ensures Packets(s, ks, w, c) == 0
  {
    if ks != [] {
      assert ks[|ks| - 1] in ks;
      PacketsZero(s, ks[..|ks| - 1], w, c);
    }
  }

  /** A cell of load 1 spells out a key of the table, whatever other keys collide there. */
  lemma {:induction false} PureCell(s: Shape, ks: seq<Key>, t: set<Key>, c: nat)
    requires s.Valid() && NoDup(ks) && SameLen(s, ks)
    requires Load(s, ks, t, c) == 1
    ensures var key := XorOf(s, ks, t, c);
            key in ks && key in t && s.Mult(key, c) == 1
            && forall k | k in ks && k in t && k != key :: s.Mult(k, c) == 0
  {
    var n := |ks| - 1;
    var k := ks[n];
    if k in t && s.Mult(k, c) > 0 {
      LoadZero(s, ks[..n], t, c);
      assert k in ks && Xor(Zero(s.keyLen), k) == k by {
        assert forall i | 0 <= i < |k| :: 0 ^ k[i] == k[i];
      }
    } else {
      PureCell(s, ks[..n], t, c);
    }
  }

  /** The packets owed to every key outside the table have been accounted for. */
  ghost predicate NothingOwed(ks: seq<Key>, t: set<Key>, w: map<Key, int>) {
    forall k | k in ks && k !in t :: Get(w, k) == 0
  }

  /** If so, a cell of load 1 also shows the exact packet count of its key. */
  lemma {:induction false} PureCellPackets(s: Shape, ks: seq<Key>, t: set<Key>, w: map<Key, int>, c: nat)
    requires s.Valid() && NoDup(ks) && SameLen(s, ks)
    requires Load(s, ks, t, c) == 1 && NothingOwed(ks, t, w)
    ensures Packets(s, ks, w, c) == Get(w, XorOf(s, ks, t, c))
  {
    PureCell(s, ks, t, c);
    var key := XorOf(s, ks, t, c);
    var w' := w[key := Get(w, key) - Get(w, key)];
    TakeOut(s, ks, t, w, key, Get(w, key), c);
    PacketsZero(s, ks, w', c);
  }

  /** What a dump has done so far, from table `t0`, packets `w0` and results `r0` to `t`, `w` and `r`: the keys that
      left the table are the ones reported; a reported count and what is still pending make up what was pending;
      and when nothing was owed outside the table, the reported counts are exact. */
  ghost predicate Reported(ks: seq<Key>, t0: set<Key>, w0: map<Key, int>, r0: map<Key, int>,
                           t: set<Key>, w: map<Key, int>, r: map<Key, int>)
  {
    && t <= t0 && r.Keys == r0.Keys + (t0 - t) && w.Keys == w0.Keys
    && (forall k | k in t0 - t :: Get(w0, k) == Get(w, k) + Get(r, k))
    && (forall k | k !in t0 - t :: Get(w0, k) == Get(w, k) && Get(r, k) == Get(r0, k))
    && (NothingOwed(ks, t0, w0) ==> NothingOwed(ks, t, w) && forall k | k in t0 - t :: Get(r, k) == Get(w0, k))
  }

  /** One more peel extends the report. */
  lemma ReportedNext(ks: seq<Key>, t0: set<Key>, w0: map<Key, int>, r0: map<Key, int>,
                     t: set<Key>, w: map<Key, int>, r: map<Key, int>, key: Key, count: int)
    requires Reported(ks, t0, w0, r0, t, w, r) && key in t && key in w
    requires NothingOwed(ks, t, w) ==> count == Get(w, key)
    ensures Reported(ks, t0, w0, r0, t - {key}, w[key := Get(w, key) - count], r[key := count])
  {
  }

  // ----- cores

  /** No cell is left with total multiplicity 1: nothing in `t` can be peeled. */
  ghost predicate IsCore(s: Shape, ks: seq<Key>, t: set<Key>)
    requires s.Valid()
  {
    forall c | 0 <= c < s.wIblt :: Load(s, ks, t, c) != 1
  }

  /** None of the first n cells has total multiplicity 1. */
  ghost predicate NoneShows(s: Shape, ks: seq<Key>, t: set<Key>, n: nat)
    requires s.Valid() && n <= s.wIblt
  {
    forall c | 0 <= c < n :: Load(s, ks, t, c) != 1
  }

  /** Every key of `t` that lies in some unpeelable subset of `t`. */
  ghost function Core(s: Shape, ks: seq<Key>, t: set<Key>): (r: set<Key>)
    requires s.Valid()
    ensures r <= t
  {
    set k | k in t && exists u :: u <= t && k in u && IsCore(s, ks, u)
  }

  /** A key that shows in a cell of load 1 belongs to no unpeelable subset. */
  lemma PeelableOutsideCores(s: Shape, ks: seq<Key>, t: set<Key>, u: set<Key>, key: Key, c: nat)
    requires s.Valid() && c < s.wIblt && u <= t && IsCore(s, ks, u)
    requires key in ks && Load(s, ks, t, c) == 1 && s.Mult(key, c) == 1
    ensures key !in u
  {
    if key in u {
      LoadMono(s, ks, u, t, c);
      LoadAtLeast(s, ks, u, key, c);
    }
  }

  /** The largest unpeelable subset is itself unpeelable, so it is unique. */
  lemma CoreIsCore(s: Shape, ks: seq<Key>, t: set<Key>)
    requires s.Valid() && NoDup(ks) && SameLen(s, ks)
    ensures IsCore(s, ks, Core(s, ks, t))
    ensures forall u | u <= t && IsCore(s, ks, u) :: u <= Core(s, ks, t)
  {
    var r := Core(s, ks, t);
    forall c | 0 <= c < s.wIblt ensures Load(s, ks, r, c) != 1 {
      if Load(s, ks, r, c) == 1 {
        PureCell(s, ks, r, c);
        var key := XorOf(s, ks, r, c);
        var u :| u <= t && key in u && IsCore(s, ks, u);
        assert u <= r;
        PeelableOutsideCores(s, ks, r, u, key, c);
      }
    }
  }

  /** One peel: a key that alone, and once, accounts for a whole cell is removed. */
  ghost predicate PeelStep(s: Shape, ks: seq<Key>, t: set<Key>, t': set<Key>)
    requires s.Valid()
  {
    exists c, key :: 0 <= c < s.wIblt && key in ks && key in t && Load(s, ks, t, c) == 1 && s.Mult(key, c) == 1
                     && t' == t - {key}
  }

  /** A run of peels, in whatever order the cells were visited. */
  ghost predicate PeelRun(s: Shape, ks: seq<Key>, states: seq<set<Key>>)
    requires s.Valid()
  {
    |states| > 0 && forall i | 0 <= i < |states| - 1 :: PeelStep(s, ks, states[i], states[i + 1])
  }

  /** A peel loses no unpeelable subset, so it does not change the core. */
  lemma PeelKeepsCore(s: Shape, ks: seq<Key>, t: set<Key>, key: Key, c: nat)
    requires s.Valid() && c < s.wIblt && key in ks && Load(s, ks, t, c) == 1 && s.Mult(key, c) == 1
    ensures Core(s, ks, t - {key}) == Core(s, ks, t)
  {
    forall u | u <= t && IsCore(s, ks, u) ensures u <= t - {key} {
      PeelableOutsideCores(s, ks, t, u, key, c);
    }
  }

  lemma CoreFixed(s: Shape, ks: seq<Key>, t: set<Key>)
    requires s.Valid() && NoDup(ks) && SameLen(s, ks)
    ensures IsCore(s, ks, t) <==> Core(s, ks, t) == t
  {
    CoreIsCore(s, ks, t);
  }

  lemma {:induction false} PeelRunKeepsCore(s: Shape, ks: seq<Key>, states: seq<set<Key>>)
    requires s.Valid() && PeelRun(s, ks, states)
    ensures Core(s, ks, states[|states| - 1]) == Core(s, ks, states[0])
  {
    var n := |states| - 1;
    if n > 0 {
      PeelRunKeepsCore(s, ks, states[..n]);
      assert PeelStep(s, ks, states[n - 1], states[n]);
      var c, key :| 0 <= c < s.wIblt && key in ks && key in states[n - 1] && Load(s, ks, states[n - 1], c) == 1
                    && s.Mult(key, c) == 1 && states[n] == states[n - 1] - {key};
      PeelKeepsCore(s, ks, states[n - 1], key, c);
    }
  }

  /** Confluence: every run of peels that cannot be continued ends in the same set. */
  lemma PeelConfluent(s: Shape, ks: seq<Key>, states: seq<set<Key>>)
    requires s.Valid() && NoDup(ks) && SameLen(s, ks)
    requires PeelRun(s, ks, states)
    ensures IsCore(s, ks, states[|states| - 1]) <==> states[|states| - 1] == Core(s, ks, states[0])
  {
    PeelRunKeepsCore(s, ks, states);
    CoreFixed(s, ks, states[|states| - 1]);
  }

  // ----- the total over all cells

  function TotalFlow(s: Shape, ks: seq<Key>, t: set<Key>, w: nat): nat
    requires s.Valid()
  {
    if w == 0 then 0 else TotalFlow(s, ks, t, w - 1) + Load(s, ks, t, w - 1)
  }

  function TotalHits(s: Shape, key: Key, w: nat, n: nat): nat
    requires s.Valid()
  {
    if w == 0 then 0 else TotalHits(s, key, w - 1, n) + s.Hits(key, w - 1, n)
  }

  lemma {:induction false} TotalHitsSum(s: Shape, key: Key, w: nat, n: nat)
    requires s.Valid()
    ensures TotalHits(s, key, w, n) <= n
    ensures (forall j: nat | j < n :: s.Cell(j, key) < w) ==> TotalHits(s, key, w, n) == n
    decreases n, w
  {
    if n > 0 {
      TotalHitsSum(s, key, w, n - 1);
      HitsStep(s, key, w, n);
    } else if w > 0 {
      TotalHitsSum(s, key, w - 1, n);
    }
  }

  lemma {:induction false} HitsStep(s: Shape, key: Key, w: nat, n: nat)
    requires s.Valid() && n > 0
    ensures TotalHits(s, key, w, n) == TotalHits(s, key, w, n - 1) + if s.Cell(n - 1, key) < w then 1 else 0
  {
    if w > 0 { HitsStep(s, key, w - 1, n); }
  }

  /** One peel lowers the sum of all flow counters by exactly the number of table hashes. */
  lemma PeelLowersTotal(s: Shape, ks: seq<Key>, t: set<Key>, key: Key)
    requires s.Valid() && NoDup(ks) && key in ks && key in t
    ensures TotalFlow(s, ks, t - {key}, s.wIblt) + s.ibltK == TotalFlow(s, ks, t, s.wIblt)
  {
    TotalFlowTakeOut(s, ks, t, key, s.wIblt);
    TotalHitsSum(s, key, s.wIblt, s.ibltK);
  }

  lemma {:induction false} TotalFlowTakeOut(s: Shape, ks: seq<Key>, t: set<Key>, key: Key, w: nat)
    requires s.Valid() && NoDup(ks) && key in ks && key in t
    ensures TotalFlow(s, ks, t - {key}, w) + TotalHits(s, key, w, s.ibltK) == TotalFlow(s, ks, t, w)
  {
    if w > 0 {
      TotalFlowTakeOut(s, ks, t, key, w - 1);
      TakeOut(s, ks, t, map[], key, 0, w - 1);
    }
  }

  // ----- whole input streams

  /** Everything a table remembers, with the ghost bookkeeping. */
  datatype Contents = Contents(bits: seq<bool>, known: seq<Key>, table: set<Key>, pending: map<Key, int>)

  ghost function Inserting(s: Shape, st: Contents, key: Key, f: int): (r: Contents)
    requires s.Valid() && |st.bits| == s.wBf
    ensures |r.bits| == s.wBf
  {
    Contents(Marked(s, st.bits, key, s.bfK), WithKey(st.known, key),
             if InFilter(s, st.bits, key) then st.table else st.table + {key},
             st.pending[key := Get(st.pending, key) + f])
  }

  /** The contents after one packet of each key of `data` in turn. */
  ghost function Building(s: Shape, st: Contents, data: seq<Key>): (r: Contents)
    requires s.Valid() && |st.bits| == s.wBf
    ensures |r.bits| == s.wBf
  {
    if data == [] then st
    else Inserting(s, Building(s, st, data[..|data| - 1]), data[|data| - 1], 1)
  }

  lemma BuildingNext(s: Shape, st: Contents, data: seq<Key>, i: nat)
    requires s.Valid() && |st.bits| == s.wBf && i < |data|
    ensures Building(s, st, data[..i + 1]) == Inserting(s, Building(s, st, data[..i]), data[i], 1)
  {
    assert data[..i + 1][..i] == data[..i];
  }

  ghost function Empty(s: Shape): Contents {
    Contents(seq(s.wBf, _ => false), [], {}, map[])
  }

  function Count(data: seq<Key>, k: Key): nat {
    if data == [] then 0 else Count(data[..|data| - 1], k) + if data[|data| - 1] == k then 1 else 0
  }

  /** The Bloom filter never took a new key of the stream for an old one. */
  ghost predicate GateNeverErred(s: Shape, data: seq<Key>)
    requires s.Valid()
  {
    data == [] || (GateNeverErred(s, data[..|data| - 1])
                   && (data[|data| - 1] in data[..|data| - 1]
                       || !InFilter(s, Building(s, Empty(s), data[..|data| - 1]).bits, data[|data| - 1])))
  }

  /** After a stream, the keys known are those of the stream and the packets pending are its counts. */
  lemma {:induction false} BuildingCounts(s: Shape, data: seq<Key>)
    requires s.Valid()
    ensures var st := Building(s, Empty(s), data);
            forall k :: (k in st.known <==> k in data) && Get(st.pending, k) == Count(data, k)
                        && (k in data <==> Count(data, k) > 0)
  {
    if data != [] {
      var n := |data| - 1;
      BuildingCounts(s, data[..n]);
      assert data == data[..n] + [data[n]];
    }
  }

  lemma {:induction false} BuildingFilter(s: Shape, data: seq<Key>)
    requires s.Valid()
    ensures var st := Building(s, Empty(s), data); AllInFilter(s, st.bits, st.known)
  {
    if data != [] {
      var n := |data| - 1;
      var st := Building(s, Empty(s), data[..n]);
      BuildingFilter(s, data[..n]);
      MarkedAll(s, st.bits, data[n], st.known);
    }
  }

  /** A key of the stream is outside the table exactly if the filter wrongly rejected it. */
  lemma {:induction false} BuildingTable(s: Shape, data: seq<Key>)
    requires s.Valid()
    ensures var st := Building(s, Empty(s), data);
            (forall k | k in st.table :: k in data)
              && (GateNeverErred(s, data) <==> forall k | k in data :: k in st.table)
  {
    if data != [] {
      var rest, k := data[..|data| - 1], data[|data| - 1];
      var st := Building(s, Empty(s), rest);
      BuildingTable(s, rest);
      assert forall x :: x in data <==> x in rest || x == k by { assert data == rest + [k]; }
      if k in rest {
        assert InFilter(s, st.bits, k) by {
          BuildingFilter(s, rest);
          BuildingCounts(s, rest);
          KnownIsSeen(s, st.bits, st.known, k);
        }
      }
    }
  }

  /** No key outside the table has packets in it if and only if the Bloom filter never erred. */
  lemma NothingOwedIffGateNeverErred(s: Shape, data: seq<Key>)
    requires s.Valid()
    ensures var st := Building(s, Empty(s), data);
            NothingOwed(st.known, st.table, st.pending) <==> GateNeverErred(s, data)
  {
    BuildingCounts(s, data);
    BuildingTable(s, data);
  }
}
