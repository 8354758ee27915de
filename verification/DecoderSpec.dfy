/** What the network-wide search looks at: k cells in k different caches that lie on one common branch. The search
    reaches them through a lowest cell, a set of other caches, and a level for each of those. */
module DecoderSpec {
  import opened Bytes
  import opened AHeapSpec
  import opened Generator
  import opened Codec
  import opened Combos

  /** k cells, one in each of the caches js; ps[t] is the cell in cache js[t]. */
  datatype Config = Config(js: seq<nat>, ps: seq<nat>)

  /** The ancestor of cell i that lies d levels higher. */
  function Place(m: nat, i: nat, d: nat): nat
    requires LevelOf(m, i) + d < 4 && i >= LevelStart(m, LevelOf(m, i))
  {
    LevelStart(m, LevelOf(m, i) + d) + Up(i - LevelStart(m, LevelOf(m, i)), d)
  }

  lemma PlaceLevel(m: nat, i: nat, d: nat)
    requires i < 15 * m && LevelOf(m, i) + d < 4
    ensures i >= LevelStart(m, LevelOf(m, i))
    ensures LevelOf(m, Place(m, i, d)) == LevelOf(m, i) + d && Place(m, i, d) < 15 * m && Place(m, i, 0) == i
  {
  }

  /** p is i itself or one of its ancestors. */
  predicate Above(m: nat, i: nat, p: nat)
    requires i < 15 * m
  {
    PlaceLevel(m, i, 0);
    LevelOf(m, p) >= LevelOf(m, i) && Place(m, i, LevelOf(m, p) - LevelOf(m, i)) == p
  }

  /** All the cells lie on the way up from cell number t. */
  ghost predicate ChainFrom(m: nat, ps: seq<nat>, t: nat)
    requires Below(ps, 15 * m) && t < |ps|
  {
    forall u | 0 <= u < |ps| :: Above(m, ps[t], ps[u])
  }

  /** k cells of k distinct caches on one common ancestor chain. */
  ghost predicate ValidConfig(m: nat, n: nat, k: nat, cfg: Config) {
    && |cfg.js| == k == |cfg.ps| && Ascending(cfg.js) && Below(cfg.js, n) && Below(cfg.ps, 15 * m)
    && exists t: nat :: t < k && ChainFrom(m, cfg.ps, t)
  }

  // ----- the points of the search

  /** One pass of the innermost loop: level and cache and cell of the first item, the other caches, and how many levels
      above the first cell each of theirs is. */
  datatype Point = Point(level: nat, ic: nat, i: nat, sub: seq<nat>, digs: seq<nat>)

  /** The tie-break: a cache before the first one must not use the first one's level. */
  predicate Allowed(ic: nat, sub: seq<nat>, digs: seq<nat>)
    requires |digs| == |sub|
  {
    forall d | 0 <= d < |sub| :: sub[d] < ic ==> digs[d] != 0
  }

  /** The caches a subset may name besides the first one. */
  ghost predicate GoodSubset(n: nat, k: nat, ic: nat, sub: seq<nat>) {
    |sub| + 1 == k && Ascending(sub) && Below(sub, n) && ic !in sub
  }

  ghost predicate GoodDigits(level: nat, ic: nat, sub: seq<nat>, digs: seq<nat>)
    requires level < 4
  {
    |digs| == |sub| && Below(digs, 4 - level) && Allowed(ic, sub, digs)
  }

  predicate InLevel(m: nat, level: nat, i: nat) {
    LevelStart(m, level) <= i < LevelStart(m, level + 1)
  }

  ghost predicate IsPoint(m: nat, n: nat, k: nat, pt: Point) {
    && pt.level < 4 && pt.ic < n && k > 1 && InLevel(m, pt.level, pt.i)
    && GoodSubset(n, k, pt.ic, pt.sub) && GoodDigits(pt.level, pt.ic, pt.sub, pt.digs)
  }

  ghost function AtDigits(k: nat, level: nat, ic: nat, i: nat, sub: seq<nat>): nat -> seq<Point>
    requires k > 1 && level < 4
  {
    (c: nat) => var digs := Digits(c, 4 - level, k - 1);
         if |sub| == k - 1 && Allowed(ic, sub, digs) then [Point(level, ic, i, sub, digs)] else []
  }

  /** The points of one cell and one set of other caches. */
  ghost function SubsetPoints(k: nat, level: nat, ic: nat, i: nat, sub: seq<nat>): seq<Point>
    requires k > 1 && level < 4
  {
    Gather(MyPow(4 - level, k - 1), AtDigits(k, level, ic, i, sub))
  }

  ghost function AtSubset(k: nat, level: nat, ic: nat, i: nat, subs: seq<seq<nat>>): nat -> seq<Point>
    requires k > 1 && level < 4
  {
    (a: nat) => if a < |subs| then SubsetPoints(k, level, ic, i, subs[a]) else []
  }

  /** The points of one cell, given the sets of other caches. */
  ghost function CellPoints(k: nat, level: nat, ic: nat, i: nat, subs: seq<seq<nat>>): seq<Point>
    requires k > 1 && level < 4
  {
    Gather(|subs|, AtSubset(k, level, ic, i, subs))
  }

  ghost function AtCell(k: nat, level: nat, ic: nat, start: nat, subs: seq<seq<nat>>): nat -> seq<Point>
    requires k > 1 && level < 4
  {
    (q: nat) => CellPoints(k, level, ic, start + q, subs)
  }

  /** The points of one level of one cache. */
  ghost function CachePoints(m: nat, n: nat, k: nat, level: nat, ic: nat): seq<Point>
    requires k > 1 && level < 4
  {
    Gather(LevelSize(m, level), AtCell(k, level, ic, LevelStart(m, level), Subsets(n, k - 1, [], ic)))
  }

  ghost function AtCache(m: nat, n: nat, k: nat, level: nat): nat -> seq<Point>
    requires k > 1 && level < 4
  {
    (ic: nat) => CachePoints(m, n, k, level, ic)
  }

  ghost function LevelPoints(m: nat, n: nat, k: nat, level: nat): seq<Point>
    requires k > 1 && level < 4
  {
    Gather(n, AtCache(m, n, k, level))
  }

  ghost function AtLevel(m: nat, n: nat, k: nat): nat -> seq<Point>
    requires k > 1
  {
    (level: nat) => if level < 4 then LevelPoints(m, n, k, level) else []
  }

  /** All points, in the order of the loops. */
  ghost function Points(m: nat, n: nat, k: nat): seq<Point>
    requires k > 1
  {
    Gather(4, AtLevel(m, n, k))
  }

  // ----- which points there are, level of nesting by level of nesting

  lemma DigitsOnlyAt(k: nat, level: nat, ic: nat, i: nat, sub: seq<nat>, c: nat, pt: Point)
    requires k > 1 && level < 4 && |sub| == k - 1 && pt in AtDigits(k, level, ic, i, sub)(c)
    ensures pt == Point(level, ic, i, sub, pt.digs) && GoodDigits(level, ic, sub, pt.digs)
  {
    DigitsBelow(c, 4 - level, k - 1);
  }

  lemma InBlocks<T>(n: nat, f: nat -> seq<T>, x: T) returns (i: nat)
    requires x in Gather(n, f)
    ensures i < n && x in f(i)
  {
    GatherIn(n, f, x);
    i :| i < n && x in f(i);
  }

  lemma DigitsOnly(k: nat, level: nat, ic: nat, i: nat, sub: seq<nat>, pt: Point)
    requires k > 1 && level < 4 && |sub| == k - 1 && pt in SubsetPoints(k, level, ic, i, sub)
    ensures pt == Point(level, ic, i, sub, pt.digs) && GoodDigits(level, ic, sub, pt.digs)
  {
    var c := InBlocks(MyPow(4 - level, k - 1), AtDigits(k, level, ic, i, sub), pt);
    DigitsOnlyAt(k, level, ic, i, sub, c, pt);
  }

  lemma DigitsBelow(c: nat, s: nat, n: nat)
    requires s > 0
    ensures Below(Digits(c, s, n), s)
  {
    forall d: nat | d < n ensures Digit(c, s, d) < s { DigitSmall(c, s, d); }
  }

  lemma InBlock<T>(n: nat, f: nat -> seq<T>, x: T, i: nat)
    requires i < n && x in f(i)
    ensures x in Gather(n, f)
  {
    GatherIn(n, f, x);
  }

  lemma DigitsAll(k: nat, level: nat, ic: nat, i: nat, sub: seq<nat>, digs: seq<nat>)
    requires k > 1 && level < 4 && |sub| == k - 1 && GoodDigits(level, ic, sub, digs)
    ensures Point(level, ic, i, sub, digs) in SubsetPoints(k, level, ic, i, sub)
  {
    var s, f, pt := 4 - level, AtDigits(k, level, ic, i, sub), Point(level, ic, i, sub, digs);
    DigitsOfValue(digs, s);
    assert pt in f(Value(digs, s));
    InBlock(MyPow(s, k - 1), f, pt, Value(digs, s));
  }

  lemma DigitsNoDup(k: nat, level: nat, ic: nat, i: nat, sub: seq<nat>)
    requires k > 1 && level < 4 && |sub| == k - 1
    ensures NoDup(SubsetPoints(k, level, ic, i, sub))
  {
    var s, f := 4 - level, AtDigits(k, level, ic, i, sub);
    var key := (pt: Point) => Value(pt.digs, s);
    forall c: nat | c < MyPow(s, k - 1) ensures NoDup(f(c)) && forall x | x in f(c) :: key(x) == c {
      ValueOfDigits(c, s, k - 1);
      assert f(c) == [] || f(c)[..0] == [];
    }
    GatherNoDup(MyPow(s, k - 1), f, key);
  }

  /** What combine2 promises of its list. */
  ghost predicate ListsSubsets(n: nat, k: nat, ic: nat, subs: seq<seq<nat>>) {
    NoDup(subs) && (forall a | 0 <= a < |subs| :: GoodSubset(n, k, ic, subs[a]))
    && forall sub :: GoodSubset(n, k, ic, sub) ==> sub in subs
  }

  lemma SubsetsAreListed(n: nat, k: nat, ic: nat)
    requires k > 1
    ensures ListsSubsets(n, k, ic, Subsets(n, k - 1, [], ic))
  {
    var subs := Subsets(n, k - 1, [], ic);
    SubsetsExactlyOnce(n, k - 1, ic);
    forall a | 0 <= a < |subs| ensures GoodSubset(n, k, ic, subs[a]) { assert subs[a] in subs; }
  }

  lemma SubsetOnly(n: nat, k: nat, level: nat, ic: nat, i: nat, subs: seq<seq<nat>>, pt: Point)
    requires k > 1 && level < 4 && ListsSubsets(n, k, ic, subs) && pt in CellPoints(k, level, ic, i, subs)
    ensures pt == Point(level, ic, i, pt.sub, pt.digs) && GoodSubset(n, k, ic, pt.sub)
            && GoodDigits(level, ic, pt.sub, pt.digs)
  {
    var f := AtSubset(k, level, ic, i, subs);
    GatherIn(|subs|, f, pt);
    var a: nat :| a < |subs| && pt in f(a);
    DigitsOnly(k, level, ic, i, subs[a], pt);
  }

  lemma SubsetAll(n: nat, k: nat, level: nat, ic: nat, i: nat, subs: seq<seq<nat>>, sub: seq<nat>, digs: seq<nat>)
    requires k > 1 && level < 4 && ListsSubsets(n, k, ic, subs) && GoodSubset(n, k, ic, sub)
             && GoodDigits(level, ic, sub, digs)
    ensures Point(level, ic, i, sub, digs) in CellPoints(k, level, ic, i, subs)
  {
    var f := AtSubset(k, level, ic, i, subs);
    assert sub in subs;
    var a: nat :| a < |subs| && subs[a] == sub;
    DigitsAll(k, level, ic, i, sub, digs);
    assert f(a) == SubsetPoints(k, level, ic, i, sub);
    GatherIn(|subs|, f, Point(level, ic, i, sub, digs));
  }

  lemma SubsetNoDup(n: nat, k: nat, level: nat, ic: nat, i: nat, subs: seq<seq<nat>>)
    requires k > 1 && level < 4 && ListsSubsets(n, k, ic, subs)
    ensures NoDup(CellPoints(k, level, ic, i, subs))
  {
    var f := AtSubset(k, level, ic, i, subs);
    var key := (pt: Point) => IndexOf(subs, pt.sub);
    forall a: nat | a < |subs| ensures NoDup(f(a)) && forall x | x in f(a) :: key(x) == a {
      DigitsNoDup(k, level, ic, i, subs[a]);
      IndexOfElement(subs, a);
      forall x | x in f(a) ensures key(x) == a { DigitsOnly(k, level, ic, i, subs[a], x); }
    }
    GatherNoDup(|subs|, f, key);
  }

  lemma CellOnly(m: nat, n: nat, k: nat, level: nat, ic: nat, pt: Point)
    requires k > 1 && level < 4 && ic < n && pt in CachePoints(m, n, k, level, ic)
    ensures pt.level == level && pt.ic == ic && IsPoint(m, n, k, pt)
  {
    var start, subs := LevelStart(m, level), Subsets(n, k - 1, [], ic);
    SubsetsAreListed(n, k, ic);
    var q := InBlocks(LevelSize(m, level), AtCell(k, level, ic, start, subs), pt);
    SubsetOnly(n, k, level, ic, start + q, subs, pt);
    OffsetInLevel(m, level, q);
  }

  lemma OffsetInLevel(m: nat, level: nat, q: nat)
    requires level < 4 && q < LevelSize(m, level)
    ensures InLevel(m, level, LevelStart(m, level) + q)
  {
  }

  lemma InLevelOffset(m: nat, level: nat, i: nat) returns (q: nat)
    requires level < 4 && InLevel(m, level, i)
    ensures q < LevelSize(m, level) && i == LevelStart(m, level) + q
  {
    q := i - LevelStart(m, level);
  }

  lemma CellHas(n: nat, k: nat, subs: seq<seq<nat>>, start: nat, q: nat, pt: Point)
    requires k > 1 && pt.level < 4 && ListsSubsets(n, k, pt.ic, subs) && pt.i == start + q
    requires GoodSubset(n, k, pt.ic, pt.sub) && GoodDigits(pt.level, pt.ic, pt.sub, pt.digs)
    ensures pt in AtCell(k, pt.level, pt.ic, start, subs)(q)
  {
    SubsetAll(n, k, pt.level, pt.ic, pt.i, subs, pt.sub, pt.digs);
  }

  lemma CellAll(m: nat, n: nat, k: nat, pt: Point)
    requires IsPoint(m, n, k, pt)
    ensures pt in CachePoints(m, n, k, pt.level, pt.ic)
  {
    var subs := Subsets(n, k - 1, [], pt.ic);
    var q := InLevelOffset(m, pt.level, pt.i);
    SubsetsAreListed(n, k, pt.ic);
    CellHas(n, k, subs, LevelStart(m, pt.level), q, pt);
    InBlock(LevelSize(m, pt.level), AtCell(k, pt.level, pt.ic, LevelStart(m, pt.level), subs), pt, q);
  }

  function Offset(start: nat, i: nat): nat {
    if i >= start then i - start else 0
  }

  lemma CellsNoDup(n: nat, k: nat, level: nat, ic: nat, start: nat, size: nat, subs: seq<seq<nat>>)
    requires k > 1 && level < 4 && ListsSubsets(n, k, ic, subs)
    ensures NoDup(Gather(size, AtCell(k, level, ic, start, subs)))
  {
    var f := AtCell(k, level, ic, start, subs);
    var key := (pt: Point) => Offset(start, pt.i);
    forall q: nat | q < size ensures NoDup(f(q)) && forall x | x in f(q) :: key(x) == q {
      SubsetNoDup(n, k, level, ic, start + q, subs);
      forall x | x in f(q) ensures key(x) == q { SubsetOnly(n, k, level, ic, start + q, subs, x); }
    }
    GatherNoDup(size, f, key);
  }

  lemma CellNoDup(m: nat, n: nat, k: nat, level: nat, ic: nat)
    requires k > 1 && level < 4
    ensures NoDup(CachePoints(m, n, k, level, ic))
  {
    SubsetsAreListed(n, k, ic);
    CellsNoDup(n, k, level, ic, LevelStart(m, level), LevelSize(m, level), Subsets(n, k - 1, [], ic));
  }

  lemma CacheOnly(m: nat, n: nat, k: nat, level: nat, pt: Point)
    requires k > 1 && level < 4 && pt in LevelPoints(m, n, k, level)
    ensures pt.level == level && IsPoint(m, n, k, pt)
  {
    var f := AtCache(m, n, k, level);
    GatherIn(n, f, pt);
    var ic: nat :| ic < n && pt in f(ic);
    CellOnly(m, n, k, level, ic, pt);
  }

  lemma CacheAll(m: nat, n: nat, k: nat, pt: Point)
    requires IsPoint(m, n, k, pt)
    ensures pt in LevelPoints(m, n, k, pt.level)
  {
    var f := AtCache(m, n, k, pt.level);
    CellAll(m, n, k, pt);
    assert pt in f(pt.ic);
    GatherIn(n, f, pt);
  }

  lemma CacheNoDup(m: nat, n: nat, k: nat, level: nat)
    requires k > 1 && level < 4
    ensures NoDup(LevelPoints(m, n, k, level))
  {
    var f := AtCache(m, n, k, level);
    var key := (pt: Point) => pt.ic;
    forall ic: nat | ic < n ensures NoDup(f(ic)) && forall x | x in f(ic) :: key(x) == ic {
      CellNoDup(m, n, k, level, ic);
      forall x | x in f(ic) ensures key(x) == ic { CellOnly(m, n, k, level, ic, x); }
    }
    GatherNoDup(n, f, key);
  }

  lemma LevelIn(m: nat, n: nat, k: nat, pt: Point)
    requires k > 1
    ensures pt in Points(m, n, k) <==> IsPoint(m, n, k, pt)
  {
    var f := AtLevel(m, n, k);
    GatherIn(4, f, pt);
    if IsPoint(m, n, k, pt) {
      CacheAll(m, n, k, pt);
      assert pt in f(pt.level);
    }
    if pt in Points(m, n, k) {
      var level: nat :| level < 4 && pt in f(level);
      CacheOnly(m, n, k, level, pt);
    }
  }

  /** The loops visit exactly these points, each once. */
  lemma PointsOnce(m: nat, n: nat, k: nat)
    requires k > 1
    ensures NoDup(Points(m, n, k))
    ensures forall pt :: pt in Points(m, n, k) <==> IsPoint(m, n, k, pt)
  {
    var f := AtLevel(m, n, k);
    var key := (pt: Point) => pt.level;
    forall level: nat | level < 4 ensures NoDup(f(level)) && forall x | x in f(level) :: key(x) == level {
      CacheNoDup(m, n, k, level);
      forall x | x in f(level) ensures key(x) == level { CacheOnly(m, n, k, level, x); }
    }
    GatherNoDup(4, f, key);
    forall pt ensures pt in Points(m, n, k) <==> IsPoint(m, n, k, pt) { LevelIn(m, n, k, pt); }
  }

  // ----- from points to cells and back

  function Ins(s: seq<nat>, r: nat, x: nat): seq<nat>
    requires r <= |s|
  {
    s[..r] + [x] + s[r..]
  }

  function Del(s: seq<nat>, r: nat): seq<nat>
    requires r < |s|
  {
    s[..r] + s[r + 1..]
  }

  /** The cells of the other caches. */
  function Others(m: nat, i: nat, digs: seq<nat>): (ps: seq<nat>)
    requires i < 15 * m && forall d | 0 <= d < |digs| :: LevelOf(m, i) + digs[d] < 4
    ensures |ps| == |digs|
  {
    PlaceLevel(m, i, 0);
    seq(|digs|, d requires 0 <= d < |digs| => Place(m, i, digs[d]))
  }

  lemma PointLevel(m: nat, n: nat, k: nat, pt: Point)
    requires IsPoint(m, n, k, pt)
    ensures pt.i < 15 * m && LevelOf(m, pt.i) == pt.level
    ensures forall d | 0 <= d < |pt.digs| :: LevelOf(m, pt.i) + pt.digs[d] < 4
  {
  }

  /** How many of the other caches come before the first one. */
  function Rank(pt: Point): (r: nat)
    ensures r <= |pt.sub|
  {
    ErrsBelow(pt.sub, pt.ic)
  }

  /** The k cells of a point, by ascending cache. */
  ghost function ConfigOf(m: nat, n: nat, k: nat, pt: Point): Config
    requires IsPoint(m, n, k, pt)
  {
    PointLevel(m, n, k, pt);
    Config(Ins(pt.sub, Rank(pt), pt.ic), Ins(Others(m, pt.i, pt.digs), Rank(pt), pt.i))
  }

  lemma InsDel(s: seq<nat>, r: nat, x: nat)
    requires r <= |s|
    ensures |Ins(s, r, x)| == |s| + 1 && Ins(s, r, x)[r] == x && Del(Ins(s, r, x), r) == s
  {
  }

  lemma InsAt(s: seq<nat>, r: nat, x: nat, u: nat)
    requires r <= |s| && u <= |s|
    ensures Ins(s, r, x)[u] == if u < r then s[u] else if u == r then x else s[u - 1]
  {
  }

  ghost predicate Increasing(s: seq<nat>) {
    forall i, j | 0 <= i < j < |s| :: s[i] < s[j]
  }

  lemma AscendingIncreases(s: seq<nat>)
    ensures Ascending(s) <==> Increasing(s)
  {
    AscendingIndex(s);
  }

  /** x belongs at place r of s. */
  ghost predicate Belongs(s: seq<nat>, r: nat, x: nat) {
    r <= |s| && (forall i | 0 <= i < r :: s[i] < x) && forall i | r <= i < |s| :: s[i] > x
  }

  lemma InsInOrder(s: seq<nat>, r: nat, x: nat, u: nat, v: nat)
    requires u < v <= |s| && Increasing(s) && Belongs(s, r, x)
    ensures Ins(s, r, x)[u] < Ins(s, r, x)[v]
  {
    InsAt(s, r, x, u);
    InsAt(s, r, x, v);
  }

  lemma InsIncreases(s: seq<nat>, r: nat, x: nat)
    requires Increasing(s) && Belongs(s, r, x)
    ensures Increasing(Ins(s, r, x))
  {
    forall u: nat, v: nat | u < v <= |s| ensures Ins(s, r, x)[u] < Ins(s, r, x)[v] { InsInOrder(s, r, x, u, v); }
  }

  lemma InsBelow(s: seq<nat>, r: nat, x: nat, n: nat)
    requires r <= |s| && Below(s, n) && x < n
    ensures Below(Ins(s, r, x), n)
  {
    forall u: nat | u <= |s| ensures Ins(s, r, x)[u] < n { InsAt(s, r, x, u); }
  }

  lemma InsAscending(s: seq<nat>, x: nat, n: nat)
    requires Ascending(s) && x !in s && Below(s, n) && x < n
    ensures Ascending(Ins(s, ErrsBelow(s, x), x)) && Below(Ins(s, ErrsBelow(s, x), x), n)
  {
    var r := ErrsBelow(s, x);
    ErrsBelowSplits(s, x);
    assert Belongs(s, r, x);
    AscendingIncreases(s);
    InsIncreases(s, r, x);
    InsBelow(s, r, x, n);
    AscendingIncreases(Ins(s, r, x));
  }

  /** Levels of the cells of a point: the first cell's is the lowest, strictly below those of earlier caches. */
  lemma ConfigLevels(m: nat, n: nat, k: nat, pt: Point, u: nat)
    requires IsPoint(m, n, k, pt) && u < k
    ensures var cfg := ConfigOf(m, n, k, pt);
            |cfg.ps| == k && cfg.ps[u] < 15 * m && LevelOf(m, cfg.ps[u]) >= pt.level
            && (u < Rank(pt) ==> LevelOf(m, cfg.ps[u]) > pt.level)
            && cfg.ps[Rank(pt)] == pt.i && Above(m, pt.i, cfg.ps[u])
  {
    PointLevel(m, n, k, pt);
    var r, os := Rank(pt), Others(m, pt.i, pt.digs);
    ErrsBelowSplits(pt.sub, pt.ic);
    InsAt(os, r, pt.i, u);
    InsAt(os, r, pt.i, r);
    PlaceLevel(m, pt.i, 0);
    if u != r { PlaceLevel(m, pt.i, pt.digs[if u < r then u else u - 1]); }
  }

  lemma ConfigIsValid(m: nat, n: nat, k: nat, pt: Point)
    requires IsPoint(m, n, k, pt)
    ensures ValidConfig(m, n, k, ConfigOf(m, n, k, pt))
  {
    var cfg, r := ConfigOf(m, n, k, pt), Rank(pt);
    PointLevel(m, n, k, pt);
    InsDel(pt.sub, r, pt.ic);
    InsDel(Others(m, pt.i, pt.digs), r, pt.i);
    InsAscending(pt.sub, pt.ic, n);
    forall u: nat | u < k ensures cfg.ps[u] < 15 * m && Above(m, pt.i, cfg.ps[u]) { ConfigLevels(m, n, k, pt, u); }
    ConfigLevels(m, n, k, pt, r);
    assert ChainFrom(m, cfg.ps, r);
  }

  lemma SameDigits(m: nat, i: nat, a: seq<nat>, b: seq<nat>)
    requires i < 15 * m && (forall d | 0 <= d < |a| :: LevelOf(m, i) + a[d] < 4)
             && (forall d | 0 <= d < |b| :: LevelOf(m, i) + b[d] < 4)
    requires Others(m, i, a) == Others(m, i, b)
    ensures a == b
  {
    forall d | 0 <= d < |a| ensures a[d] == b[d] {
      PlaceLevel(m, i, a[d]);
      PlaceLevel(m, i, b[d]);
      assert Others(m, i, a)[d] == Others(m, i, b)[d];
    }
  }

  /** Different points have different cells. */
  lemma ConfigInjective(m: nat, n: nat, k: nat, a: Point, b: Point)
    requires IsPoint(m, n, k, a) && IsPoint(m, n, k, b) && ConfigOf(m, n, k, a) == ConfigOf(m, n, k, b)
    ensures a == b
  {
    var ra, rb := Rank(a), Rank(b);
    ConfigLevels(m, n, k, a, rb);
    ConfigLevels(m, n, k, b, ra);
    PointLevel(m, n, k, a);
    PointLevel(m, n, k, b);
    assert ra == rb;
    InsDel(a.sub, ra, a.ic);
    InsDel(b.sub, rb, b.ic);
    InsDel(Others(m, a.i, a.digs), ra, a.i);
    InsDel(Others(m, b.i, b.digs), rb, b.i);
    SameDigits(m, a.i, a.digs, b.digs);
  }

  /** The first of the lowest cells of a chain. */
  lemma FirstLowest(m: nat, ps: seq<nat>, t0: nat, n: nat) returns (t: nat)
    requires Below(ps, 15 * m) && t0 < n <= |ps| && ChainFrom(m, ps, t0)
    ensures t <= t0 && ps[t] == ps[t0] && forall u | 0 <= u < t :: LevelOf(m, ps[u]) > LevelOf(m, ps[t])
  {
    t := 0;
    while LevelOf(m, ps[t]) != LevelOf(m, ps[t0])
      invariant t <= t0 && forall u | 0 <= u < t :: LevelOf(m, ps[u]) > LevelOf(m, ps[t0])
      decreases t0 - t
    {
      assert Above(m, ps[t0], ps[t]);
      t := t + 1;
    }
    assert Above(m, ps[t0], ps[t]);
    PlaceLevel(m, ps[t0], 0);
  }

  lemma DelAt(s: seq<nat>, t: nat, u: nat)
    requires t < |s| && u < |s| - 1
    ensures Del(s, t)[u] == s[if u < t then u else u + 1]
  {
  }

  lemma DelIns(s: seq<nat>, t: nat)
    requires t < |s|
    ensures Ins(Del(s, t), t, s[t]) == s
  {
  }

  lemma DelInOrder(js: seq<nat>, t: nat, u: nat, v: nat)
    requires t < |js| && u < v < |js| - 1 && Increasing(js)
    ensures Del(js, t)[u] < Del(js, t)[v]
  {
    DelAt(js, t, u);
    DelAt(js, t, v);
  }

  lemma DelRemoves(js: seq<nat>, t: nat, n: nat)
    requires Below(js, n) && t < |js| && Increasing(js)
    ensures Below(Del(js, t), n) && js[t] !in Del(js, t) && ErrsBelow(Del(js, t), js[t]) == t
  {
    var sub := Del(js, t);
    forall u: nat | u < |sub|
      ensures sub[u] < n && (if u < t then sub[u] < js[t] else sub[u] > js[t])
    {
      DelAt(js, t, u);
    }
    ErrsBelowIs(sub, js[t], t);
  }

  lemma DelAscending(js: seq<nat>, t: nat, n: nat)
    requires Ascending(js) && Below(js, n) && t < |js|
    ensures Ascending(Del(js, t)) && Below(Del(js, t), n) && js[t] !in Del(js, t)
    ensures ErrsBelow(Del(js, t), js[t]) == t
  {
    AscendingIncreases(js);
    DelRemoves(js, t, n);
    forall u: nat, v: nat | u < v < |Del(js, t)| ensures Del(js, t)[u] < Del(js, t)[v] { DelInOrder(js, t, u, v); }
    AscendingIncreases(Del(js, t));
  }

  function LevelUp(m: nat, i: nat, p: nat): nat
    requires i < 15 * m && Above(m, i, p)
  {
    LevelOf(m, p) - LevelOf(m, i)
  }

  /** The levels, above cell i, of cells that lie on its way up. */
  ghost function LevelsAbove(m: nat, i: nat, ps: seq<nat>): (digs: seq<nat>)
    requires i < 15 * m && forall g | 0 <= g < |ps| :: Above(m, i, ps[g])
    ensures |digs| == |ps|
  {
    seq(|ps|, g requires 0 <= g < |ps| => LevelUp(m, i, ps[g]))
  }

  lemma OthersOfLevels(m: nat, i: nat, ps: seq<nat>)
    requires i < 15 * m && forall g | 0 <= g < |ps| :: Above(m, i, ps[g])
    ensures forall d | 0 <= d < |ps| :: LevelOf(m, i) + LevelsAbove(m, i, ps)[d] < 4
    ensures Others(m, i, LevelsAbove(m, i, ps)) == ps
  {
    forall g | 0 <= g < |ps| ensures LevelOf(m, i) + LevelsAbove(m, i, ps)[g] < 4
      && Place(m, i, LevelUp(m, i, ps[g])) == ps[g] {
      assert Above(m, i, ps[g]);
    }
  }

  /** The point whose first cell is cell t of the configuration. */
  ghost function PointAt(m: nat, cfg: Config, t: nat): Point
    requires t < |cfg.ps| == |cfg.js| && Below(cfg.ps, 15 * m) && ChainFrom(m, cfg.ps, t)
  {
    DelChain(m, cfg.ps, t);
    Point(LevelOf(m, cfg.ps[t]), cfg.js[t], cfg.ps[t], Del(cfg.js, t), LevelsAbove(m, cfg.ps[t], Del(cfg.ps, t)))
  }

  lemma DelChain(m: nat, ps: seq<nat>, t: nat)
    requires t < |ps| && Below(ps, 15 * m) && ChainFrom(m, ps, t)
    ensures forall g | 0 <= g < |Del(ps, t)| :: Above(m, ps[t], Del(ps, t)[g])
  {
    forall g: nat | g < |Del(ps, t)| ensures Above(m, ps[t], Del(ps, t)[g]) { DelAt(ps, t, g); }
  }

  lemma PointAtAllowed(m: nat, n: nat, cfg: Config, t: nat)
    requires t < |cfg.ps| == |cfg.js| && Below(cfg.ps, 15 * m) && ChainFrom(m, cfg.ps, t)
    requires Ascending(cfg.js) && Below(cfg.js, n)
    requires forall u | 0 <= u < t :: LevelOf(m, cfg.ps[u]) > LevelOf(m, cfg.ps[t])
    ensures var pt := PointAt(m, cfg, t); |pt.digs| == |pt.sub| && Allowed(pt.ic, pt.sub, pt.digs)
  {
    var pt := PointAt(m, cfg, t);
    DelChain(m, cfg.ps, t);
    DelAscending(cfg.js, t, n);
    ErrsBelowSplits(pt.sub, pt.ic);
    forall d: nat | d < |pt.sub| && pt.sub[d] < pt.ic ensures pt.digs[d] != 0 {
      DelAt(cfg.ps, t, d);
      assert pt.digs[d] == LevelUp(m, pt.i, Del(cfg.ps, t)[d]);
    }
  }

  lemma PointAtIsPoint(m: nat, n: nat, k: nat, cfg: Config, t: nat)
    requires k > 1 && t < k == |cfg.ps| == |cfg.js| && Below(cfg.ps, 15 * m) && ChainFrom(m, cfg.ps, t)
    requires Ascending(cfg.js) && Below(cfg.js, n)
    requires forall u | 0 <= u < t :: LevelOf(m, cfg.ps[u]) > LevelOf(m, cfg.ps[t])
    ensures IsPoint(m, n, k, PointAt(m, cfg, t))
  {
    var pt := PointAt(m, cfg, t);
    DelAscending(cfg.js, t, n);
    DelChain(m, cfg.ps, t);
    OthersOfLevels(m, cfg.ps[t], Del(cfg.ps, t));
    PointAtAllowed(m, n, cfg, t);
    LevelsTile(m, pt.i, pt.level);
  }

  lemma PointAtConfig(m: nat, n: nat, k: nat, cfg: Config, t: nat)
    requires t < k == |cfg.ps| == |cfg.js| && Below(cfg.ps, 15 * m) && ChainFrom(m, cfg.ps, t)
    requires Ascending(cfg.js) && Below(cfg.js, n) && IsPoint(m, n, k, PointAt(m, cfg, t))
    ensures ConfigOf(m, n, k, PointAt(m, cfg, t)) == cfg
  {
    DelChain(m, cfg.ps, t);
    DelAscending(cfg.js, t, n);
    OthersOfLevels(m, cfg.ps[t], Del(cfg.ps, t));
    DelIns(cfg.js, t);
    DelIns(cfg.ps, t);
  }

  lemma ChainLowest(m: nat, ps: seq<nat>, t: nat, t0: nat)
    requires t < |ps| && t0 < |ps| && Below(ps, 15 * m) && ChainFrom(m, ps, t0) && ps[t] == ps[t0]
    ensures ChainFrom(m, ps, t)
  {
    forall u | 0 <= u < |ps| ensures Above(m, ps[t], ps[u]) { assert Above(m, ps[t0], ps[u]); }
  }

  /** Any k cells on a common chain are the cells of a point. */
  lemma PointOfConfig(m: nat, n: nat, k: nat, cfg: Config) returns (pt: Point)
    requires k > 1 && ValidConfig(m, n, k, cfg)
    ensures IsPoint(m, n, k, pt) && ConfigOf(m, n, k, pt) == cfg
  {
    var t0: nat :| t0 < k && ChainFrom(m, cfg.ps, t0);
    var t := FirstLowest(m, cfg.ps, t0, k);
    ChainLowest(m, cfg.ps, t, t0);
    pt := PointAt(m, cfg, t);
    PointAtIsPoint(m, n, k, cfg, t);
    PointAtConfig(m, n, k, cfg, t);
  }

  ghost function Configs(m: nat, n: nat, k: nat, pts: seq<Point>): (cs: seq<Config>)
    requires AllPoints(m, n, k, pts)
    ensures |cs| == |pts|
  {
    seq(|pts|, x requires 0 <= x < |pts| => ConfigOf(m, n, k, pts[x]))
  }

  ghost predicate AllPoints(m: nat, n: nat, k: nat, pts: seq<Point>) {
    forall x | 0 <= x < |pts| :: IsPoint(m, n, k, pts[x])
  }

  lemma ConfigsNoDup(m: nat, n: nat, k: nat, pts: seq<Point>)
    requires AllPoints(m, n, k, pts) && NoDup(pts)
    ensures NoDup(Configs(m, n, k, pts))
  {
    var cs := Configs(m, n, k, pts);
    NoDupIndex(pts);
    forall x, y | 0 <= x < y < |cs| ensures cs[x] != cs[y] {
      if cs[x] == cs[y] { ConfigInjective(m, n, k, pts[x], pts[y]); }
    }
    NoDupIndex(cs);
  }

  lemma ConfigsIn(m: nat, n: nat, k: nat, pts: seq<Point>, cfg: Config)
    requires k > 1 && AllPoints(m, n, k, pts) && forall pt :: IsPoint(m, n, k, pt) ==> pt in pts
    ensures cfg in Configs(m, n, k, pts) <==> ValidConfig(m, n, k, cfg)
  {
    var cs := Configs(m, n, k, pts);
    if cfg in cs {
      var x :| 0 <= x < |cs| && cs[x] == cfg;
      ConfigIsValid(m, n, k, pts[x]);
    }
    if ValidConfig(m, n, k, cfg) {
      var pt := PointOfConfig(m, n, k, cfg);
      assert pt in pts;
      var x :| 0 <= x < |pts| && pts[x] == pt;
      assert cs[x] == cfg;
    }
  }

  lemma PointsAreAll(m: nat, n: nat, k: nat)
    requires k > 1
    ensures AllPoints(m, n, k, Points(m, n, k))
  {
    PointsOnce(m, n, k);
    var pts := Points(m, n, k);
    forall x | 0 <= x < |pts| ensures IsPoint(m, n, k, pts[x]) { assert pts[x] in pts; }
  }

  /** Exactly-once search: the loops reach each k-tuple of cells that lie in k distinct caches on one common ancestor
      chain exactly once, and nothing else. */
  lemma ExactlyOnce(m: nat, n: nat, k: nat)
    requires k > 1
    ensures AllPoints(m, n, k, Points(m, n, k))
    ensures var cs := Configs(m, n, k, Points(m, n, k));
            NoDup(cs) && forall cfg :: cfg in cs <==> ValidConfig(m, n, k, cfg)
  {
    var pts := Points(m, n, k);
    PointsOnce(m, n, k);
    PointsAreAll(m, n, k);
    ConfigsNoDup(m, n, k, pts);
    forall cfg ensures cfg in Configs(m, n, k, pts) <==> ValidConfig(m, n, k, cfg) { ConfigsIn(m, n, k, pts, cfg); }
  }
}
