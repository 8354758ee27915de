/** Storing a flow's fragment at a switch, and the network-wide search that recovers keys from the tables of all
    switches. */
module Decoder {
  import opened Bytes
  import opened Items
  import opened AHeapSpec
  import opened Linear
  import opened Generator
  import opened Codec
  import opened Combos
  import opened DecoderSpec
  import opened SearchSpec

  // ----- one point

  /** The cells on the way up from cell i, lowest first. */
  method Places(m: nat, i: nat, level: nat) returns (places: seq<nat>)
    requires level < 4 && i < 15 * m && level == LevelOf(m, i)
    ensures |places| == 4 - level && forall d: nat | d < |places| :: places[d] == Place(m, i, d)
  {
    PlaceLevel(m, i, 0);
    var place := i - LevelStart(m, level);
    places := [];
    for levelI := level to 4
      invariant |places| == levelI - level
      invariant levelI < 4 ==> place == Up(i - LevelStart(m, level), levelI - level)
      invariant forall d: nat | d < |places| :: places[d] == Place(m, i, d)
    {
      places := places + [place + LevelStart(m, levelI)];
      place := place / 2;
    }
  }

  /** The ids without a fragment among `ids`. */
  method ErasureList(ids: seq<nat>, m: nat) returns (fragErrList: seq<nat>)
    ensures fragErrList == Survivors(m, ids)
  {
    fragErrList := [];
    for f := 0 to m
      invariant fragErrList == Survivors(f, ids)
    {
      if f !in ids { fragErrList := fragErrList + [f]; }
    }
  }

  /** What has been collected from the cells qs of the caches js. */
  ghost predicate Collected(job: Job, js: seq<nat>, qs: seq<nat>, srcs: seq<Key>, isEmpty: bool) {
    |js| == |qs| && srcs == Fragments(job, js, qs) && (isEmpty <==> !AllFull(job, js, qs))
  }

  lemma CollectOne(job: Job, js: seq<nat>, qs: seq<nat>, srcs: seq<Key>, isEmpty: bool, c: nat, i: nat)
    requires Collected(job, js, qs, srcs, isEmpty)
    ensures Collected(job, js + [c], qs + [i], srcs + [Fragment(job, c, i)], isEmpty || CellAt(job, c, i).count == 0)
  {
    assert Fragments(job, js + [c], qs + [i]) == Fragments(job, js, qs) + [Fragment(job, c, i)];
    if AllFull(job, js + [c], qs + [i]) {
      assert forall u | 0 <= u < |js| :: (js + [c])[u] == js[u] && (qs + [i])[u] == qs[u];
      assert (js + [c])[|js|] == c && (qs + [i])[|js|] == i;
    }
  }

  /** The first g elements of s, with x at place r once that is passed. */
  ghost function InsUpTo(s: seq<nat>, r: nat, x: nat, g: nat): seq<nat>
    requires g <= |s|
  {
    if g <= r then s[..g] else Ins(s[..g], r, x)
  }

  lemma InsUpToNext(s: seq<nat>, r: nat, x: nat, g: nat)
    requires r <= |s| && g < |s|
    ensures InsUpTo(s, r, x, g + 1) == (if g == r then InsUpTo(s, r, x, g) + [x] else InsUpTo(s, r, x, g)) + [s[g]]
  {
    assert s[..g + 1] == s[..g] + [s[g]];
    if g >= r { assert s[..g + 1][..r] == s[..r] && s[..g + 1][r..] == s[..g][r..] + [s[g]]; }
  }

  lemma InsUpToEnd(s: seq<nat>, r: nat, x: nat)
    requires r <= |s|
    ensures Ins(s, r, x) == if |s| == r then InsUpTo(s, r, x, |s|) + [x] else InsUpTo(s, r, x, |s|)
  {
    assert s[..|s|] == s;
  }

  /** One cell of a point: its fragment, and whether it is empty. */
  method CollectCell(job: Job, ghost js: seq<nat>, ghost qs: seq<nat>, c: nat, i: nat, srcs0: seq<Key>, isEmpty0: bool)
    returns (srcs: seq<Key>, isEmpty: bool)
    requires Collected(job, js, qs, srcs0, isEmpty0)
    ensures Collected(job, js + [c], qs + [i], srcs, isEmpty)
  {
    CollectOne(job, js, qs, srcs0, isEmpty0, c, i);
    srcs, isEmpty := srcs0 + [Fragment(job, c, i)], isEmpty0;
    if CellAt(job, c, i).count == 0 { isEmpty := true; }
  }

  /** The fragment of the next other cache of a point, behind that of the first cache if this is its place. */
  method CollectNext(job: Job, ic: nat, i: nat, sub: seq<nat>, ps: seq<nat>, ghost r: nat, g: nat,
                     alreadyIc0: bool, srcs0: seq<Key>, isEmpty0: bool)
    returns (alreadyIc: bool, srcs: seq<Key>, isEmpty: bool)
    requires |ps| == |sub| && r <= |sub| && g < |sub| && (sub[g] > ic <==> g >= r) && (alreadyIc0 <==> g > r)
    requires Collected(job, InsUpTo(sub, r, ic, g), InsUpTo(ps, r, i, g), srcs0, isEmpty0)
    ensures alreadyIc <==> g + 1 > r
    ensures Collected(job, InsUpTo(sub, r, ic, g + 1), InsUpTo(ps, r, i, g + 1), srcs, isEmpty)
  {
    alreadyIc, srcs, isEmpty := alreadyIc0, srcs0, isEmpty0;
    ghost var js, qs := InsUpTo(sub, r, ic, g), InsUpTo(ps, r, i, g);
    InsUpToNext(sub, r, ic, g);
    InsUpToNext(ps, r, i, g);
    if !alreadyIc && sub[g] > ic {
      srcs, isEmpty := CollectCell(job, js, qs, ic, i, srcs, isEmpty);
      js, qs := js + [ic], qs + [i];
      alreadyIc := true;
    }
    srcs, isEmpty := CollectCell(job, js, qs, sub[g], ps[g], srcs, isEmpty);
  }

  /** The fragments of a point, by ascending cache; a null pointer is the empty key. */
  method Collect(job: Job, ic: nat, i: nat, sub: seq<nat>, ps: seq<nat>) returns (srcs: seq<Key>, isEmpty: bool)
    requires Ascending(sub) && ic !in sub && |ps| == |sub|
    ensures var r := ErrsBelow(sub, ic); Collected(job, Ins(sub, r, ic), Ins(ps, r, i), srcs, isEmpty)
  {
    ghost var r := ErrsBelow(sub, ic);
    ErrsBelowSplits(sub, ic);
    var alreadyIc := false;
    srcs, isEmpty := [], false;
    for g := 0 to |sub|
      invariant alreadyIc <==> g > r
      invariant Collected(job, InsUpTo(sub, r, ic, g), InsUpTo(ps, r, i, g), srcs, isEmpty)
    {
      alreadyIc, srcs, isEmpty := CollectNext(job, ic, i, sub, ps, r, g, alreadyIc, srcs, isEmpty);
    }
    InsUpToEnd(sub, r, ic);
    InsUpToEnd(ps, r, i);
    if !alreadyIc {
      srcs, isEmpty := CollectCell(job, InsUpTo(sub, r, ic, |sub|), InsUpTo(ps, r, i, |sub|), ic, i, srcs, isEmpty);
    }
  }

  /** Puts the key into the result cells of the other caches. */
  method RecordOthers(job: Job, key: Key, sub: seq<nat>, ps: seq<nat>, maps0: Tables) returns (maps: Tables)
    requires |ps| == |sub|
    ensures maps == PutAll(job, key, sub, ps, maps0)
  {
    maps := maps0;
    for g := 0 to |sub|
      invariant maps == PutAll(job, key, sub[..g], ps[..g], maps0)
    {
      assert sub[..g + 1][..g] == sub[..g] && ps[..g + 1][..g] == ps[..g];
      maps := Put(maps, sub[g], ps[g], Named(job, sub[g], ps[g], key));
    }
    assert sub[..|sub|] == sub && ps[..|sub|] == ps;
  }

  /** Decodes the fragments of a point, unless one is missing. */
  method Recover(job: Job, ghost js: seq<nat>, ghost qs: seq<nat>, ic: nat, i: nat, sub: seq<nat>, ps: seq<nat>,
                 fragErrList: seq<nat>)
    returns (isEmpty: bool, recoverKey: Key)
    requires ValidJob(job) && Ascending(sub) && ic !in sub && |ps| == |sub| && |js| == |qs|
    requires js == Ins(sub, ErrsBelow(sub, ic), ic) && qs == Ins(ps, ErrsBelow(sub, ic), i)
    requires AllFull(job, js, qs) ==> Decodable(job.L, fragErrList, Fragments(job, js, qs), job.k, job.p, job.len)
    ensures isEmpty <==> !AllFull(job, js, qs)
    ensures !isEmpty ==> |recoverKey| == job.k * job.len
                         && recoverKey == Rebuilt(job.L, fragErrList, Fragments(job, js, qs), job.k, job.p, job.len)
  {
    var srcs;
    srcs, isEmpty := Collect(job, ic, i, sub, ps);
    recoverKey := [];
    if !isEmpty {
      recoverKey := Decode(job.L, fragErrList, srcs, job.k, job.p, job.len);
    }
  }

  /** Checks the key against the first cell, and puts it into all cells of the point. */
  method Confirm(job: Job, ic: nat, i: nat, sub: seq<nat>, ps: seq<nat>, realKey: Key, maps0: Tables)
    returns (maps: Tables)
    requires |ps| == |sub|
    ensures maps == if Passes(job.m, job.home(realKey), i) then
                      PutAll(job, realKey, sub, ps, Put(maps0, ic, i, Named(job, ic, i, realKey)))
                    else maps0
  {
    maps := maps0;
    if Passes(job.m, job.home(realKey), i) {
      maps := Put(maps, ic, i, Named(job, ic, i, realKey));
      maps := RecordOthers(job, realKey, sub, ps, maps);
    }
  }

  /** The cells of a point as the loops hold them. */
  ghost predicate HasCells(job: Job, pt: Point, ps: seq<nat>)
    requires IsPoint(job.m, |job.caches|, job.k, pt)
  {
    PointLevel(job.m, |job.caches|, job.k, pt);
    ps == Others(job.m, pt.i, pt.digs)
  }

  /** One pass of the innermost loop. */
  method TryPoint(job: Job, pt: Point, ps: seq<nat>, fragErrList: seq<nat>, maps0: Tables) returns (maps: Tables)
    requires ValidJob(job) && IsPoint(job.m, |job.caches|, job.k, pt) && HasCells(job, pt, ps)
    requires fragErrList == ErasuresOf(job, pt)
    ensures maps == Step(job, maps0, pt)
  {
    ghost var cfg := CellsOf(job, pt);
    if PointFull(job, pt) { PointDecodable(job, pt); }
    var isEmpty, recoverKey := Recover(job, cfg.js, cfg.ps, pt.ic, pt.i, pt.sub, ps, fragErrList);
    maps := maps0;
    if !isEmpty {
      assert recoverKey == FullOf(job, pt);
      maps := Confirm(job, pt.ic, pt.i, pt.sub, ps, recoverKey[..job.keyLen], maps0);
    }
  }

  // ----- the loops

  /** Trying the points `pts` in turn takes the tables from `before` to `after`. */
  ghost predicate Searched(job: Job, pts: seq<Point>, before: Tables, after: Tables) {
    after == Run(job, pts, before)
  }

  lemma SearchedOne(job: Job, pt: Point, maps: Tables)
    ensures Searched(job, [pt], maps, Step(job, maps, pt))
  {
    FoldNext(StepOf(job), [], pt, maps);
    assert [] + [pt] == [pt];
  }

  /** The first n blocks of points have been tried. */
  ghost predicate Through(job: Job, n: nat, f: nat -> seq<Point>, before: Tables, after: Tables) {
    Searched(job, Gather(n, f), before, after)
  }

  lemma ThroughNone(job: Job, f: nat -> seq<Point>, maps: Tables)
    ensures Through(job, 0, f, maps, maps)
  {
  }

  lemma ThroughNext(job: Job, n: nat, f: nat -> seq<Point>, m0: Tables, m1: Tables, m2: Tables)
    requires Through(job, n, f, m0, m1) && Searched(job, f(n), m1, m2)
    ensures Through(job, n + 1, f, m0, m2)
  {
    FoldAppend(StepOf(job), Gather(n, f), f(n), m0);
  }

  /** The levels that number c picks for the other caches. */
  method ChoosePlace(c: nat, s: nat, n: nat) returns (choosePlace: seq<nat>)
    requires s > 0
    ensures choosePlace == Digits(c, s, n)
  {
    choosePlace := [];
    for d := 0 to n
      invariant |choosePlace| == d && forall e: nat | e < d :: choosePlace[e] == Digit(c, s, e)
    {
      PowPositive(s, d);
      PowPositive(s, d + 1);
      choosePlace := choosePlace + [c % MyPow(s, d + 1) / MyPow(s, d)];
    }
  }

  method IsValid(ic: nat, sub: seq<nat>, choosePlace: seq<nat>) returns (ifValid: bool)
    requires |choosePlace| == |sub|
    ensures ifValid <==> Allowed(ic, sub, choosePlace)
  {
    ifValid := true;
    for d := 0 to |sub|
      invariant ifValid <==> forall e | 0 <= e < d :: sub[e] < ic ==> choosePlace[e] != 0
    {
      if sub[d] < ic && choosePlace[d] == 0 { ifValid := false; }
    }
  }

  method CellsAt(places: seq<nat>, choosePlace: seq<nat>) returns (ps: seq<nat>)
    requires Below(choosePlace, |places|)
    ensures |ps| == |choosePlace| && forall g | 0 <= g < |ps| :: ps[g] == places[choosePlace[g]]
  {
    ps := [];
    for g := 0 to |choosePlace|
      invariant |ps| == g && forall e | 0 <= e < g :: ps[e] == places[choosePlace[e]]
    {
      ps := ps + [places[choosePlace[g]]];
    }
  }

  /** `places` are the cells from i upwards. */
  ghost predicate ArePlaces(m: nat, level: nat, i: nat, places: seq<nat>) {
    && level < 4 && i < 15 * m && LevelOf(m, i) == level && |places| == 4 - level && i >= LevelStart(m, level)
    && forall d: nat | d < |places| :: places[d] == Place(m, i, d)
  }

  lemma CellsAreOthers(job: Job, pt: Point, places: seq<nat>, ps: seq<nat>)
    requires IsPoint(job.m, |job.caches|, job.k, pt) && ArePlaces(job.m, pt.level, pt.i, places)
    requires |ps| == |pt.digs| && forall g | 0 <= g < |ps| :: pt.digs[g] < |places| && ps[g] == places[pt.digs[g]]
    ensures HasCells(job, pt, ps)
  {
    PointLevel(job.m, |job.caches|, job.k, pt);
  }

  /** One number c: its digits, the tie-break, and the point if it is allowed. */
  method TryNumber(job: Job, level: nat, ic: nat, i: nat, sub: seq<nat>, places: seq<nat>, fragErrList: seq<nat>,
                   c: nat, maps0: Tables)
    returns (maps: Tables)
    requires ValidJob(job) && level < 4 && ic < |job.caches| && InLevel(job.m, level, i)
             && ArePlaces(job.m, level, i, places)
    requires GoodSubset(|job.caches|, job.k, ic, sub)
    requires fragErrList == Survivors(job.k + job.p, IdsAt(job.caches, [ic] + sub))
    ensures Searched(job, AtDigits(job.k, level, ic, i, sub)(c), maps0, maps)
  {
    var choosePlace := ChoosePlace(c, |places|, job.k - 1);
    DigitsBelow(c, |places|, job.k - 1);
    var ifValid := IsValid(ic, sub, choosePlace);
    maps := maps0;
    if ifValid {
      var pt := Point(level, ic, i, sub, choosePlace);
      var ps := CellsAt(places, choosePlace);
      CellsAreOthers(job, pt, places, ps);
      maps := TryPoint(job, pt, ps, fragErrList, maps0);
      SearchedOne(job, pt, maps0);
    }
  }

  /** The numbers c below b. */
  method TryNumbers(job: Job, level: nat, ic: nat, i: nat, sub: seq<nat>, places: seq<nat>, fragErrList: seq<nat>,
                    b: nat, maps0: Tables)
    returns (maps: Tables)
    requires ValidJob(job) && level < 4 && ic < |job.caches| && InLevel(job.m, level, i)
             && ArePlaces(job.m, level, i, places)
    requires GoodSubset(|job.caches|, job.k, ic, sub)
    requires fragErrList == Survivors(job.k + job.p, IdsAt(job.caches, [ic] + sub))
    ensures Through(job, b, AtDigits(job.k, level, ic, i, sub), maps0, maps)
  {
    ghost var f := AtDigits(job.k, level, ic, i, sub);
    maps := maps0;
    ThroughNone(job, f, maps0);
    for c := 0 to b
      invariant Through(job, c, f, maps0, maps)
    {
      ghost var before := maps;
      maps := TryNumber(job, level, ic, i, sub, places, fragErrList, c, maps);
      ThroughNext(job, c, f, maps0, before, maps);
    }
  }

  /** The points of one cell and one set of other caches. */
  method SearchSubset(job: Job, level: nat, ic: nat, i: nat, sub: seq<nat>, places: seq<nat>, maps0: Tables)
    returns (maps: Tables)
    requires ValidJob(job) && level < 4 && ic < |job.caches| && InLevel(job.m, level, i)
             && ArePlaces(job.m, level, i, places)
    requires GoodSubset(|job.caches|, job.k, ic, sub)
    ensures Through(job, MyPow(4 - level, job.k - 1), AtDigits(job.k, level, ic, i, sub), maps0, maps)
  {
    var actualCaches := IdsAt(job.caches, [ic] + sub);
    var fragErrList := ErasureList(actualCaches, job.k + job.p);
    var b := MyPow(|places|, job.k - 1);
    maps := TryNumbers(job, level, ic, i, sub, places, fragErrList, b, maps0);
  }

  lemma SubsetSearched(job: Job, level: nat, ic: nat, i: nat, subs: seq<seq<nat>>, a: nat, m0: Tables, m1: Tables)
    requires job.k > 1 && level < 4 && a < |subs|
    requires Through(job, MyPow(4 - level, job.k - 1), AtDigits(job.k, level, ic, i, subs[a]), m0, m1)
    ensures Searched(job, AtSubset(job.k, level, ic, i, subs)(a), m0, m1)
  {
  }

  /** The points of one cell and the a-th set of other caches, after those of the sets before it. */
  method SearchNextSubset(job: Job, level: nat, ic: nat, i: nat, chooseCaches: seq<seq<nat>>, a: nat, places: seq<nat>,
                          maps1: Tables,
                          ghost maps0: Tables)
    returns (maps: Tables)
    requires ValidJob(job) && level < 4 && ic < |job.caches| && InLevel(job.m, level, i)
             && ArePlaces(job.m, level, i, places)
    requires a < |chooseCaches| && GoodSubset(|job.caches|, job.k, ic, chooseCaches[a])
    requires Through(job, a, AtSubset(job.k, level, ic, i, chooseCaches), maps0, maps1)
    ensures Through(job, a + 1, AtSubset(job.k, level, ic, i, chooseCaches), maps0, maps)
  {
    maps := SearchSubset(job, level, ic, i, chooseCaches[a], places, maps1);
    SubsetSearched(job, level, ic, i, chooseCaches, a, maps1, maps);
    ThroughNext(job, a, AtSubset(job.k, level, ic, i, chooseCaches), maps0, maps1, maps);
  }

  /** The points of one cell. */
  method SearchCell(job: Job, level: nat, ic: nat, i: nat, chooseCaches: seq<seq<nat>>, maps0: Tables)
    returns (maps: Tables)
    requires ValidJob(job) && level < 4 && ic < |job.caches| && InLevel(job.m, level, i)
    requires ListsSubsets(|job.caches|, job.k, ic, chooseCaches)
    ensures Searched(job, CellPoints(job.k, level, ic, i, chooseCaches), maps0, maps)
  {
    LevelsTile(job.m, i, level);
    var places := Places(job.m, i, level);
    ghost var f := AtSubset(job.k, level, ic, i, chooseCaches);
    maps := maps0;
    ThroughNone(job, f, maps0);
    for a := 0 to |chooseCaches|
      invariant Through(job, a, f, maps0, maps)
    {
      maps := SearchNextSubset(job, level, ic, i, chooseCaches, a, places, maps, maps0);
    }
  }

  lemma CellSearched(job: Job, level: nat, ic: nat, start: nat, subs: seq<seq<nat>>, q: nat, i: nat,
                     m0: Tables, m1: Tables)
    requires job.k > 1 && level < 4 && i == start + q && Searched(job, CellPoints(job.k, level, ic, i, subs), m0, m1)
    ensures Searched(job, AtCell(job.k, level, ic, start, subs)(q), m0, m1)
  {
  }

  /** Cell q of one level of one cache, after the cells before it. */
  method SearchNextCell(job: Job, level: nat, ic: nat, q: nat, chooseCaches: seq<seq<nat>>, maps1: Tables,
                        ghost maps0: Tables)
    returns (maps: Tables)
    requires ValidJob(job) && level < 4 && ic < |job.caches| && q < LevelSize(job.m, level)
    requires ListsSubsets(|job.caches|, job.k, ic, chooseCaches)
    requires Through(job, q, AtCell(job.k, level, ic, LevelStart(job.m, level), chooseCaches), maps0, maps1)
    ensures Through(job, q + 1, AtCell(job.k, level, ic, LevelStart(job.m, level), chooseCaches), maps0, maps)
  {
    var i := LevelStart(job.m, level) + q;
    OffsetInLevel(job.m, level, q);
    maps := SearchCell(job, level, ic, i, chooseCaches, maps1);
    CellSearched(job, level, ic, LevelStart(job.m, level), chooseCaches, q, i, maps1, maps);
    ThroughNext(job, q, AtCell(job.k, level, ic, LevelStart(job.m, level), chooseCaches), maps0, maps1, maps);
  }

  /** The points of one level of one cache. */
  method SearchCache(job: Job, level: nat, ic: nat, maps0: Tables) returns (maps: Tables)
    requires ValidJob(job) && level < 4 && ic < |job.caches|
    ensures Searched(job, CachePoints(job.m, |job.caches|, job.k, level, ic), maps0, maps)
  {
    var tmp := seq(job.k - 1, _ => 0);
    var chooseCaches := Combine2(|job.caches|, job.k - 1, tmp, [], ic);
    assert tmp[job.k - 1..] == [] && chooseCaches == Subsets(|job.caches|, job.k - 1, [], ic);
    SubsetsAreListed(|job.caches|, job.k, ic);
    ghost var f := AtCell(job.k, level, ic, LevelStart(job.m, level), chooseCaches);
    maps := maps0;
    ThroughNone(job, f, maps0);
    for q := 0 to LevelSize(job.m, level)
      invariant Through(job, q, f, maps0, maps)
    {
      maps := SearchNextCell(job, level, ic, q, chooseCaches, maps, maps0);
    }
  }

  /** The points of one level. */
  method SearchLevel(job: Job, level: nat, maps0: Tables) returns (maps: Tables)
    requires ValidJob(job) && level < 4
    ensures Searched(job, LevelPoints(job.m, |job.caches|, job.k, level), maps0, maps)
  {
    ghost var f := AtCache(job.m, |job.caches|, job.k, level);
    maps := maps0;
    ThroughNone(job, f, maps0);
    for ic := 0 to |job.caches|
      invariant Through(job, ic, f, maps0, maps)
    {
      ghost var before := maps;
      maps := SearchCache(job, level, ic, maps);
      ThroughNext(job, ic, f, maps0, before, maps);
    }
  }

  /** The search over tables in ascending order of id: it tries exactly the points, in the order of the loops. */
  method SearchSorted(job: Job) returns (maps: Tables)
    requires ValidJob(job)
    ensures Searched(job, Points(job.m, |job.caches|, job.k), Blank(job.m, |job.caches|), maps)
  {
    ghost var f, blank := AtLevel(job.m, |job.caches|, job.k), Blank(job.m, |job.caches|);
    maps := Blank(job.m, |job.caches|);
    ThroughNone(job, f, maps);
    for level := 0 to 4
      invariant Through(job, level, f, blank, maps)
    {
      ghost var before := maps;
      maps := SearchLevel(job, level, maps);
      ThroughNext(job, level, f, blank, before, maps);
    }
  }

  // ----- sorting the tables by id

  function Insertion(caches: seq<Cache>, c: Cache): seq<Cache> {
    var r := ErrsBelow(Ids(caches), c.id);
    caches[..r] + [c] + caches[r..]
  }

  /** The tables in the order std::sort puts them. */
  function SortById(caches: seq<Cache>): seq<Cache> {
    if caches == [] then [] else Insertion(SortById(caches[..|caches| - 1]), caches[|caches| - 1])
  }

  ghost predicate SameCaches(a: seq<Cache>, b: seq<Cache>) {
    |a| == |b| && forall c :: c in a <==> c in b
  }

  lemma InsertionAdds(a: seq<Cache>, b: seq<Cache>, c: Cache)
    requires SameCaches(a, b)
    ensures SameCaches(Insertion(a, c), b + [c])
  {
    var r := ErrsBelow(Ids(a), c.id);
    assert a == a[..r] + a[r..];
    forall d ensures d in Insertion(a, c) <==> d in b + [c] { assert d in a <==> d in a[..r] || d in a[r..]; }
  }

  lemma InsertionSorts(caches: seq<Cache>, c: Cache, n: nat)
    requires Ascending(Ids(caches)) && Below(Ids(caches), n) && c.id !in Ids(caches) && c.id < n
    ensures Ascending(Ids(Insertion(caches, c))) && Below(Ids(Insertion(caches, c)), n)
  {
    var ids := Ids(caches);
    var r := ErrsBelow(ids, c.id);
    InsAscending(ids, c.id, n);
    assert Ids(caches[..r] + [c] + caches[r..]) == Ins(ids, r, c.id);
  }

  lemma IdsIn(caches: seq<Cache>, j: nat)
    ensures j in Ids(caches) <==> exists c :: c in caches && c.id == j
  {
    if j in Ids(caches) {
      var x :| 0 <= x < |caches| && Ids(caches)[x] == j;
      assert caches[x] in caches && caches[x].id == j;
    }
    if c :| c in caches && c.id == j {
      var x :| 0 <= x < |caches| && caches[x] == c;
      assert Ids(caches)[x] == j;
    }
  }

  lemma StillNew(a: seq<Cache>, b: seq<Cache>, id: nat)
    requires SameCaches(a, b) && id !in Ids(b)
    ensures id !in Ids(a)
  {
    IdsIn(a, id);
    IdsIn(b, id);
  }

  lemma FrontIds(caches: seq<Cache>, n: nat)
    requires caches != [] && NoDup(Ids(caches)) && Below(Ids(caches), n)
    ensures var x := |caches| - 1;
            NoDup(Ids(caches[..x])) && Below(Ids(caches[..x]), n) && caches[x].id !in Ids(caches[..x])
              && caches[x].id < n
  {
    var x := |caches| - 1;
    assert Ids(caches)[..x] == Ids(caches[..x]) && Ids(caches)[x] == caches[x].id;
  }

  /** Distinct ids: the same tables in ascending order of id. */
  lemma {:induction false} SortByIdSorts(caches: seq<Cache>, n: nat)
    requires NoDup(Ids(caches)) && Below(Ids(caches), n)
    ensures SameCaches(SortById(caches), caches)
    ensures Ascending(Ids(SortById(caches))) && Below(Ids(SortById(caches)), n)
  {
    if caches != [] {
      var x := |caches| - 1;
      var front, c := caches[..x], caches[x];
      FrontIds(caches, n);
      SortByIdSorts(front, n);
      StillNew(SortById(front), front, c.id);
      InsertionSorts(SortById(front), c, n);
      InsertionAdds(SortById(front), front, c);
      assert caches == front + [c];
    }
  }

  /** Decodes the keys of all flows it can find in the tables: sorts the tables and searches them. */
  method DecodeCaches(L: Isal, home: Key -> nat, m: nat, k: nat, p: nat, keyLen: nat, len: nat, caches: seq<Cache>)
    returns (job: Job, unMaps: Tables)
    requires IsIsal(L) && Homes(m, home) && k > 1 && k + p <= 255 && keyLen <= k * len
    requires NoDup(Ids(caches)) && Below(Ids(caches), k + p) && forall c | c in caches :: FitCache(m, len, c)
    ensures job == Job(L, home, m, k, p, keyLen, len, SortById(caches)) && ValidJob(job)
    ensures unMaps == Decoded(job)
  {
    var sorted := SortById(caches);
    SortByIdSorts(caches, k + p);
    job := Job(L, home, m, k, p, keyLen, len, sorted);
    unMaps := SearchSorted(job);
  }
}
