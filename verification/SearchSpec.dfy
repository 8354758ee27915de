/** What the network-wide search does with its points: the tables it fills, which of their entries can be trusted, and
    which flows are found. */
module SearchSpec {
  import opened Bytes
  import opened Items
  import opened AHeapSpec
  import opened Linear
  import opened Generator
  import opened Codec
  import opened Combos
  import opened DecoderSpec

  /** The table of one switch, and the id of the fragments it stores. */
  datatype Cache = Cache(id: nat, cells: seq<Item>)

  type Tables = seq<seq<Item>>

  /** A decoding job: the codec, the level-0 cell of each key, table size, code parameters, key length, fragment length,
      and the tables by ascending id. */
  datatype Job = Job(L: Isal, home: Key -> nat, m: nat, k: nat, p: nat, keyLen: nat, len: nat, caches: seq<Cache>)

  function Ids(caches: seq<Cache>): seq<nat> {
    seq(|caches|, c requires 0 <= c < |caches| => caches[c].id)
  }

  /** A table of 15m cells whose nonempty ones hold fragments of `len` bytes. */
  ghost predicate FitCache(m: nat, len: nat, cache: Cache) {
    |cache.cells| == 15 * m && Sized(cache.cells, len)
  }

  ghost predicate ValidJob(job: Job) {
    && IsIsal(job.L) && Homes(job.m, job.home) && job.k > 1 && job.k + job.p <= 255 && job.keyLen <= job.k * job.len
    && Ascending(Ids(job.caches)) && Below(Ids(job.caches), job.k + job.p)
    && forall c | 0 <= c < |job.caches| :: FitCache(job.m, job.len, job.caches[c])
  }

  // ----- the cells and fragments of a point

  function CellAt(job: Job, c: nat, i: nat): Item {
    if c < |job.caches| && i < |job.caches[c].cells| then job.caches[c].cells[i] else EMPTY
  }

  /** The fragment in a cell, or nothing. */
  function Fragment(job: Job, c: nat, i: nat): Key {
    if CellAt(job, c, i).count != 0 then CellAt(job, c, i).key else []
  }

  function Fragments(job: Job, js: seq<nat>, ps: seq<nat>): (srcs: seq<Key>)
    requires |js| == |ps|
    ensures |srcs| == |js|
  {
    seq(|js|, u requires 0 <= u < |js| => Fragment(job, js[u], ps[u]))
  }

  predicate AllFull(job: Job, js: seq<nat>, ps: seq<nat>)
    requires |js| == |ps|
  {
    forall u | 0 <= u < |js| :: CellAt(job, js[u], ps[u]).count != 0
  }

  function IdAt(caches: seq<Cache>, c: nat): nat {
    if c < |caches| then caches[c].id else 0
  }

  function IdsAt(caches: seq<Cache>, js: seq<nat>): (ids: seq<nat>)
    ensures |ids| == |js|
  {
    seq(|js|, u requires 0 <= u < |js| => IdAt(caches, js[u]))
  }

  lemma IdsAtAscend(job: Job, js: seq<nat>)
    requires ValidJob(job) && Ascending(js) && Below(js, |job.caches|)
    ensures Ascending(IdsAt(job.caches, js)) && Below(IdsAt(job.caches, js), job.k + job.p)
  {
    var ids, all := IdsAt(job.caches, js), Ids(job.caches);
    AscendingIndex(js);
    AscendingIndex(all);
    forall u: nat, v: nat | u < v < |ids| ensures ids[u] < ids[v] {
      assert ids[u] == all[js[u]] && ids[v] == all[js[v]];
    }
    AscendingIndex(ids);
    forall u: nat | u < |ids| ensures ids[u] < job.k + job.p { assert ids[u] == all[js[u]]; }
  }

  /** A list of exactly the ids that are not erased, in ascending order, is the list of survivors. */
  lemma {:induction false} SurvivorsUnique(m: nat, errs: seq<nat>, ids: seq<nat>)
    requires Ascending(ids) && Below(ids, m) && Misses(m, ids, errs)
    ensures Survivors(m, errs) == ids
  {
    if m > 0 {
      if m - 1 in errs {
        LastBelow(ids, m);
        SurvivorsUnique(m - 1, errs, ids);
      } else {
        LastOfAscending(ids, m);
        LastIsLargest(ids, m);
        var rest := ids[..|ids| - 1];
        assert ids == rest + [m - 1];
        MissesRest(m, rest, errs);
        SurvivorsUnique(m - 1, errs, rest);
      }
    }
  }

  ghost predicate Misses(m: nat, ids: seq<nat>, errs: seq<nat>) {
    forall j: nat | j < m :: j in ids <==> j !in errs
  }

  lemma MissesRest(m: nat, rest: seq<nat>, errs: seq<nat>)
    requires m > 0 && Misses(m, rest + [m - 1], errs)
    ensures Misses(m - 1, rest, errs)
  {
    forall j: nat | j < m - 1 ensures j in rest <==> j !in errs { assert j in rest <==> j in rest + [m - 1]; }
  }

  lemma LastOfAscending(a: seq<nat>, m: nat)
    requires Ascending(a) && Below(a, m) && m > 0 && m - 1 in a
    ensures a != [] && a[|a| - 1] == m - 1
  {
    LastIsLargest(a, m);
  }

  lemma LastBelow(a: seq<nat>, m: nat)
    requires Ascending(a) && Below(a, m) && m > 0 && m - 1 !in a
    ensures Below(a, m - 1)
  {
    forall u | 0 <= u < |a| ensures a[u] < m - 1 { assert a[u] in a; }
  }

  /** p erased ids, ascending, and what survives are the k ids at hand, ascending. */
  ghost predicate FitErasures(k: nat, p: nat, ids: seq<nat>, errs: seq<nat>) {
    && Ascending(errs) && Below(errs, k + p) && |errs| == p && |ids| == k && Below(ids, k + p)
    && |Survivors(k + p, errs)| == k && FirstSurvivors(k + p, errs, k) == ids
  }

  lemma ErasedSurvive(m: nat, ids: seq<nat>, errs: seq<nat>)
    requires Ascending(ids) && Below(ids, m) && errs == Survivors(m, ids)
    ensures Survivors(m, errs) == ids
  {
    forall j: nat | j < m ensures j in ids <==> j !in errs { SurvivorsIn(m, ids, j); }
    SurvivorsUnique(m, errs, ids);
  }

  lemma FirstOfAll(m: nat, errs: seq<nat>, ids: seq<nat>)
    requires Survivors(m, errs) == ids
    ensures FirstSurvivors(m, errs, |ids|) == ids
  {
    assert ids[..|ids|] == ids;
  }

  /** Exactly p ids are erased, and the fragments that survive are those at hand, in ascending order. */
  lemma ErasedIds(k: nat, p: nat, ids: seq<nat>, errs: seq<nat>)
    requires Ascending(ids) && Below(ids, k + p) && |ids| == k && errs == Survivors(k + p, ids)
    ensures FitErasures(k, p, ids, errs)
  {
    var m := k + p;
    SurvivorsAscend(m, ids);
    SurvivorsCount(m, ids);
    ErasedSurvive(m, ids, errs);
    assert Ascending(errs) && Below(errs, m) && |errs| == p;
    FirstOfAll(m, errs, ids);
  }

  // ----- filling the result tables

  function At(maps: Tables, c: nat, i: nat): Item {
    if c < |maps| && i < |maps[c]| then maps[c][i] else EMPTY
  }

  function Put(maps: Tables, c: nat, i: nat, item: Item): Tables {
    if c < |maps| && i < |maps[c]| then maps[c := maps[c][i := item]] else maps
  }

  /** The cell's counter and time, with the recovered key in place of the fragment. */
  function Named(job: Job, c: nat, i: nat, key: Key): Item {
    Item(key, CellAt(job, c, i).count, CellAt(job, c, i).time)
  }

  function PutAll(job: Job, key: Key, js: seq<nat>, ps: seq<nat>, maps: Tables): Tables
    requires |js| == |ps|
  {
    if js == [] then maps
    else
      var g := |js| - 1;
      Put(PutAll(job, key, js[..g], ps[..g], maps), js[g], ps[g], Named(job, js[g], ps[g], key))
  }

  /** The cells of a point that has been confirmed: first the first cell, then the others. */
  ghost function Record(job: Job, pt: Point, key: Key, maps: Tables): Tables
    requires IsPoint(job.m, |job.caches|, job.k, pt)
  {
    PointLevel(job.m, |job.caches|, job.k, pt);
    PutAll(job, key, pt.sub, Others(job.m, pt.i, pt.digs), Put(maps, pt.ic, pt.i, Named(job, pt.ic, pt.i, key)))
  }

  ghost function CellsOf(job: Job, pt: Point): (cfg: Config)
    requires IsPoint(job.m, |job.caches|, job.k, pt)
    ensures |cfg.js| == |cfg.ps| == job.k
  {
    ConfigIsValid(job.m, |job.caches|, job.k, pt);
    ConfigOf(job.m, |job.caches|, job.k, pt)
  }

  // ----- what a point decodes to

  lemma SameIds(caches: seq<Cache>, sub: seq<nat>, r: nat, ic: nat)
    requires r <= |sub|
    ensures forall j: nat :: j in IdsAt(caches, Ins(sub, r, ic)) <==> j in IdsAt(caches, [ic] + sub)
  {
    var a, b := IdsAt(caches, Ins(sub, r, ic)), IdsAt(caches, [ic] + sub);
    forall j: nat ensures j in a <==> j in b {
      if j in a {
        var u :| 0 <= u < |a| && a[u] == j;
        InsAt(sub, r, ic, u);
        assert b[if u < r then u + 1 else if u == r then 0 else u] == j;
      }
      if j in b {
        var u :| 0 <= u < |b| && b[u] == j;
        var v := if u == 0 then r else if u - 1 < r then u - 1 else u;
        InsAt(sub, r, ic, v);
        assert a[v] == j;
      }
    }
  }

  lemma SameErasures(caches: seq<Cache>, m: nat, sub: seq<nat>, r: nat, ic: nat)
    requires r <= |sub|
    ensures Survivors(m, IdsAt(caches, [ic] + sub)) == Survivors(m, IdsAt(caches, Ins(sub, r, ic)))
  {
    SameIds(caches, sub, r, ic);
    SurvivorsSame(m, IdsAt(caches, [ic] + sub), IdsAt(caches, Ins(sub, r, ic)));
  }

  lemma CachesAscend(job: Job, pt: Point)
    requires IsPoint(job.m, |job.caches|, job.k, pt)
    ensures var js := CellsOf(job, pt).js;
            js == Ins(pt.sub, Rank(pt), pt.ic) && Ascending(js) && Below(js, |job.caches|)
  {
    ConfigIsValid(job.m, |job.caches|, job.k, pt);
  }

  lemma CachesErasures(job: Job, sub: seq<nat>, r: nat, ic: nat)
    requires ValidJob(job) && r <= |sub| && Ascending(Ins(sub, r, ic)) && Below(Ins(sub, r, ic), |job.caches|)
    requires |Ins(sub, r, ic)| == job.k
    ensures FitErasures(job.k, job.p, IdsAt(job.caches, Ins(sub, r, ic)),
            Survivors(job.k + job.p, IdsAt(job.caches, [ic] + sub)))
  {
    IdsAtAscend(job, Ins(sub, r, ic));
    SameErasures(job.caches, job.k + job.p, sub, r, ic);
    ErasedIds(job.k, job.p, IdsAt(job.caches, Ins(sub, r, ic)),
      Survivors(job.k + job.p, IdsAt(job.caches, [ic] + sub)));
  }

  /** For every point the erasure list has exactly p ids, and what survives are the ids of its caches, ascending. */
  lemma PointErasures(job: Job, pt: Point)
    requires ValidJob(job) && IsPoint(job.m, |job.caches|, job.k, pt)
    ensures FitErasures(job.k, job.p, IdsAt(job.caches, CellsOf(job, pt).js),
            Survivors(job.k + job.p, IdsAt(job.caches, [pt.ic] + pt.sub)))
  {
    CachesAscend(job, pt);
    CachesErasures(job, pt.sub, Rank(pt), pt.ic);
  }

  lemma FullRect(job: Job, js: seq<nat>, qs: seq<nat>)
    requires ValidJob(job) && |js| == |qs| == job.k && AllFull(job, js, qs)
    ensures Rect(Fragments(job, js, qs), job.k, job.len)
  {
    forall u | 0 <= u < |js| ensures |Fragment(job, js[u], qs[u])| == job.len {
      assert CellAt(job, js[u], qs[u]).count != 0;
      var cache := job.caches[js[u]];
      assert FitCache(job.m, job.len, cache);
      assert cache.cells[qs[u]].count != 0;
    }
  }

  ghost predicate PointFull(job: Job, pt: Point)
    requires IsPoint(job.m, |job.caches|, job.k, pt)
  {
    AllFull(job, CellsOf(job, pt).js, CellsOf(job, pt).ps)
  }

  /** The erasure list the search makes for a point. */
  function ErasuresOf(job: Job, pt: Point): seq<nat> {
    Survivors(job.k + job.p, IdsAt(job.caches, [pt.ic] + pt.sub))
  }

  lemma FitDecodable(job: Job, js: seq<nat>, ps: seq<nat>, errs: seq<nat>)
    requires ValidJob(job) && |js| == |ps| == job.k && AllFull(job, js, ps)
    requires FitErasures(job.k, job.p, IdsAt(job.caches, js), errs)
    ensures Decodable(job.L, errs, Fragments(job, js, ps), job.k, job.p, job.len)
  {
    FullRect(job, js, ps);
  }

  lemma PointDecodable(job: Job, pt: Point)
    requires ValidJob(job) && IsPoint(job.m, |job.caches|, job.k, pt) && PointFull(job, pt)
    ensures var cfg := CellsOf(job, pt);
            Decodable(job.L, ErasuresOf(job, pt), Fragments(job, cfg.js, cfg.ps), job.k, job.p, job.len)
  {
    PointErasures(job, pt);
    FitDecodable(job, CellsOf(job, pt).js, CellsOf(job, pt).ps, ErasuresOf(job, pt));
  }

  /** What the fragments in a point's cells decode to. */
  ghost function FullOf(job: Job, pt: Point): (full: Key)
    requires ValidJob(job) && IsPoint(job.m, |job.caches|, job.k, pt) && PointFull(job, pt)
    ensures |full| == job.k * job.len
  {
    PointDecodable(job, pt);
    var cfg := CellsOf(job, pt);
    RebuiltLength(job.L, ErasuresOf(job, pt), Fragments(job, cfg.js, cfg.ps), job.k, job.p, job.len);
    Rebuilt(job.L, ErasuresOf(job, pt), Fragments(job, cfg.js, cfg.ps), job.k, job.p, job.len)
  }

  /** What the cells decode to has exactly the fragments in the cells. */
  lemma FullOfReencodes(job: Job, pt: Point)
    requires ValidJob(job) && IsPoint(job.m, |job.caches|, job.k, pt) && PointFull(job, pt)
    ensures var cfg := CellsOf(job, pt);
            Below(IdsAt(job.caches, cfg.js), 256)
            && FragmentsOf(job.L.gf, FullOf(job, pt), job.k, job.len, IdsAt(job.caches, cfg.js),
               Fragments(job, cfg.js, cfg.ps))
  {
    var cfg := CellsOf(job, pt);
    PointErasures(job, pt);
    PointDecodable(job, pt);
    Reencodes(job.L, ErasuresOf(job, pt), Fragments(job, cfg.js, cfg.ps), job.k, job.p, job.len,
      IdsAt(job.caches, cfg.js));
  }

  /** If the cells hold the fragments of some key, it is that key. */
  lemma FullOfDecodes(job: Job, pt: Point)
    requires ValidJob(job) && IsPoint(job.m, |job.caches|, job.k, pt) && PointFull(job, pt)
    ensures var cfg := CellsOf(job, pt);
            Below(IdsAt(job.caches, cfg.js), 256)
            && DecodesTo(job.L.gf, job.k, job.len, IdsAt(job.caches, cfg.js), Fragments(job, cfg.js, cfg.ps),
               FullOf(job, pt))
  {
    var cfg := CellsOf(job, pt);
    PointErasures(job, pt);
    PointDecodable(job, pt);
    RebuiltDecodes(job.L, ErasuresOf(job, pt), Fragments(job, cfg.js, cfg.ps), job.k, job.p, job.len,
      IdsAt(job.caches, cfg.js));
  }

  /** The key itself: the padding is cut off. */
  ghost function KeyOf(job: Job, pt: Point): (key: Key)
    requires ValidJob(job) && IsPoint(job.m, |job.caches|, job.k, pt) && PointFull(job, pt)
    ensures |key| == job.keyLen
  {
    FullOf(job, pt)[..job.keyLen]
  }

  /** No cell of the point is empty, and its first cell lies on the branch of the key that was decoded. */
  ghost predicate Confirmed(job: Job, pt: Point) {
    && ValidJob(job) && IsPoint(job.m, |job.caches|, job.k, pt) && PointFull(job, pt)
    && Passes(job.m, job.home(KeyOf(job, pt)), pt.i)
  }

  /** One point tried. */
  ghost function Step(job: Job, maps: Tables, pt: Point): Tables {
    if Confirmed(job, pt) then Record(job, pt, KeyOf(job, pt), maps) else maps
  }

  ghost function StepOf(job: Job): (Tables, Point) -> Tables {
    (maps: Tables, pt: Point) => Step(job, maps, pt)
  }

  /** The result tables after trying the points in turn. */
  ghost function Run(job: Job, pts: seq<Point>, maps: Tables): Tables {
    Fold(StepOf(job), pts, maps)
  }

  /** One table per cache, all cells empty. */
  function Blank(m: nat, n: nat): Tables {
    seq(n, _ => seq(15 * m, _ => EMPTY))
  }

  ghost predicate Shaped(job: Job, maps: Tables) {
    |maps| == |job.caches| && forall c | 0 <= c < |maps| :: |maps[c]| == 15 * job.m
  }

  /** The result of a search: all points tried in the order of the loops, from blank tables. */
  ghost function Decoded(job: Job): Tables
    requires job.k > 1
  {
    Run(job, Points(job.m, |job.caches|, job.k), Blank(job.m, |job.caches|))
  }
}
